// What the FLAC callbacks promise: blocks that fit are appended whole, the output never
// gets stuck between full and empty, and samples can be read back.
module FlacLaws {
  import opened Bytes
  import opened IoBuffers
  import opened Pipeline
  import opened PipelineLaws
  import opened Flac

  // -- appending a block ------------------------------------------------------------------

  function EncodeAll(samples: seq<int>, size: nat): seq<byte>
    requires size <= 4
  {
    if samples == [] then [] else EncodeSample(samples[0], size) + EncodeAll(samples[1..], size)
  }

  lemma {:induction false} EncodeAllLength(samples: seq<int>, size: nat)
    requires size <= 4
    ensures |EncodeAll(samples, size)| == |samples| * size
  {
    if samples != [] {
      EncodeAllLength(samples[1..], size);
      assert |samples| * size == size + (|samples| - 1) * size;
    }
  }

  // What a block adds to the output.
  function Encoded(b: Block, size: nat): seq<byte>
    requires b.WellFormed() && size <= 4
  {
    EncodeAll(Rows(b, 0), size)
  }

  // Whether `room` bytes hold exactly n whole samples.
  predicate Holds(room: int, n: nat, size: nat) {
    n * size <= room < n * size + size
  }

  // However often the output is compacted between the writes, the loops append all
  // samples if the room suffices, and otherwise as many as fit before they give up.
  lemma {:induction false} PutSamplesExact(out: Buf, samples: seq<int>, size: nat, room: nat)
    requires out.Ok() && 0 < size <= 4 && Holds(out.Available(), room, size)
    ensures var (t, proceed) := PutSamples(out, samples, size);
      && (proceed <==> |samples| <= room)
      && t.unread == out.unread + EncodeAll(samples[..Min(|samples|, room)], size)
    decreases |samples|
  {
    OneLess(out.Available(), room, size);
    if samples != [] {
      var item := EncodeSample(samples[0], size);
      var (next, done) := Put(out, item);
      if done {
        PutSamplesExact(next, samples[1..], size, room - 1);
        var fitting := samples[..Min(|samples|, room)];
        var rest := samples[1..][..|fitting| - 1];
        assert fitting[0] == samples[0] && fitting[1..] == rest;
        assert (out.unread + item) + EncodeAll(rest, size) == out.unread + (item + EncodeAll(rest, size));
      }
    }
  }

  lemma OneLess(room: int, n: nat, size: nat)
    requires size > 0 && Holds(room, n, size)
    ensures size <= room <==> n > 0
    ensures n > 0 ==> Holds(room - size, n - 1, size)
  {
    if n > 0 {
      assert n * size == (n - 1) * size + size;
      FewerItems(1, n, size);
    }
  }

  lemma FrameOfSamples(info: StreamInfo)
    requires info.Supported()
    ensures 0 < info.SampleSize() <= 4 && info.format.FrameSize() == info.format.channels * info.SampleSize() > 0
  {
    var size := info.SampleSize();
    assert info.format.bitsPerSample == 8 * size;
    assert info.format.channels * info.format.bitsPerSample == 8 * (info.format.channels * size);
    MultipleAtLeast(size, info.format.channels);
  }

  lemma {:induction false} RowsLength(b: Block, i: nat)
    requires b.WellFormed() && i <= b.blocksize
    ensures |Rows(b, i)| == (b.blocksize - i) * b.format.channels
    decreases b.blocksize - i
  {
    if i < b.blocksize {
      RowsLength(b, i + 1);
      assert (b.blocksize - i) * b.format.channels == b.format.channels + (b.blocksize - (i + 1)) * b.format.channels;
    }
  }

  lemma BlockBytes(info: StreamInfo, b: Block)
    requires info.Supported() && b.WellFormed() && b.Matches(info)
    ensures |Rows(b, 0)| * info.SampleSize() == b.blocksize * info.format.FrameSize()
  {
    FrameOfSamples(info);
    RowsLength(b, 0);
    assert b.blocksize * b.format.channels * info.SampleSize() == b.blocksize * (b.format.channels * info.SampleSize());
  }

  // A block is appended exactly if its header agrees with the stream information and all
  // its frames fit; one with another header changes nothing.
  lemma WriteBlockExact(out: Buf, info: StreamInfo, b: Block)
    requires out.Ok() && info.Supported() && b.WellFormed()
    ensures var (t, proceed) := WriteBlock(out, info, b);
      && (proceed <==> b.format == info.format && b.blocksize * info.format.FrameSize() <= out.Available())
      && (proceed ==> info.SampleSize() <= 4 && t.unread == out.unread + Encoded(b, info.SampleSize())
                      && |t.unread| == |out.unread| + b.blocksize * info.format.FrameSize())
      && (b.format != info.format ==> t == out)
      && out.unread <= t.unread
  {
    if b.Matches(info) {
      var samples := Rows(b, 0);
      FrameOfSamples(info);
      BlockBytes(info, b);
      EncodeAllLength(samples, info.SampleSize());
      var room := out.Available() / info.SampleSize();
      WholeItemsFit(out.Available(), info.SampleSize(), room);
      assert (room + 1) * info.SampleSize() == room * info.SampleSize() + info.SampleSize();
      PutSamplesExact(out, samples, info.SampleSize(), room);
      ItemsThatFit(out.Available(), info.SampleSize(), |samples|);
      assert samples[..|samples|] == samples;
    }
  }

  // -- runs of the decoder and the device ---------------------------------------------------

  // A turn of the player over FLAC: a block that libFLAC has decoded, or a write to the
  // device.
  datatype Turn = Decoded(block: Block) | Played

  // The guards of player_preload and player_process_once decide whether the turn takes
  // place; the third component is what the decoder has appended.
  function TakeTurn(s: Sink, info: StreamInfo, turn: Turn): (r: (Sink, bool, seq<byte>))
    requires s.Ok() && info.Supported() && (turn.Decoded? ==> turn.block.WellFormed())
    ensures SameSink(s, r.0)
  {
    match turn
    case Decoded(block) =>
      if s.IsFull(info.BlockSize()) then (s, true, [])
      else
        var (out, proceed) := WriteBlock(s.out, info, block);
        FrameOfSamples(info);
        (s.(out := out), proceed, if proceed then Encoded(block, info.SampleSize()) else [])
    case Played =>
      if s.IsEmpty() then (s, true, []) else (WriteAlsa(s).0, true, [])
  }

  // Whether a block is one the stream information announces.
  predicate Announced(b: Block, info: StreamInfo) {
    b.WellFormed() && b.Matches(info) && b.blocksize <= info.maxBlocksize
  }

  ghost predicate AllAnnounced(turns: seq<Turn>, info: StreamInfo) {
    forall t :: t in turns && t.Decoded? ==> Announced(t.block, info)
  }

  function TakeTurns(s: Sink, info: StreamInfo, turns: seq<Turn>): (r: (Sink, bool, seq<byte>))
    requires s.Ok() && info.Supported()
    requires forall t :: t in turns && t.Decoded? ==> t.block.WellFormed()
    ensures SameSink(s, r.0)
    decreases |turns|
  {
    if turns == [] then (s, true, [])
    else
      var (t, proceed, bytes) := TakeTurn(s, info, turns[0]);
      if !proceed then (t, false, bytes)
      else
        var (u, ended, later) := TakeTurns(t, info, turns[1..]);
        (u, ended, bytes + later)
  }

  // The output of the decoder that pcm_decoder_flac_open sets up: it holds whole frames
  // and has room for the largest block when it is empty.
  ghost predicate FlacSink(s: Sink, info: StreamInfo) {
    && s.Ok() && info.Supported() && s.frame == info.format.FrameSize() && Aligned(s)
    && s.out.cap >= info.BlockSize() && |s.out.unread| % s.frame == 0
  }

  lemma WriteKeepsFrames(s: Sink, info: StreamInfo)
    requires FlacSink(s, info) && !s.IsEmpty()
    ensures var t := WriteAlsa(s).0; FlacSink(t, info) && Received(t) == Received(s)
  {
    WriteAlsaKeeps(s);
    var t := WriteAlsa(s).0;
    assert |Received(s)| == |Received(t)|;
    FramesLeft(|s.device.delivered|, |s.out.unread|, |t.device.delivered|, |t.out.unread|, s.frame);
  }

  lemma FramesLeft(a: nat, b: nat, c: nat, d: nat, frame: nat)
    requires frame > 0 && a + b == c + d
    requires a % frame == 0 && b % frame == 0 && c % frame == 0
    ensures d % frame == 0
  {
    var i, j, k := a / frame, b / frame, c / frame;
    assert a == frame * i && b == frame * j && c == frame * k;
    assert frame * (i + j - k) == frame * i + frame * j - frame * k;
    ModulusUnique(d, frame, i + j - k, 0);
  }

  // Under the not-full guard an announced block always fits.
  lemma DecodeKeepsFrames(s: Sink, info: StreamInfo, b: Block)
    requires FlacSink(s, info) && Announced(b, info) && !s.IsFull(info.BlockSize())
    ensures var (out, proceed) := WriteBlock(s.out, info, b);
      proceed && FlacSink(s.(out := out), info)
  {
    WriteBlockExact(s.out, info, b);
    FewerItems(b.blocksize, info.maxBlocksize, info.format.FrameSize());
    MoreFrames(|s.out.unread|, s.frame, b.blocksize);
  }

  // A full output holds a frame to write: no state of FLAC playback counts as both.
  lemma FullIsNotEmpty(s: Sink, info: StreamInfo)
    requires FlacSink(s, info) && s.IsFull(info.BlockSize())
    ensures !s.IsEmpty()
  {
    var n := |s.out.unread|;
    if n < s.frame {
      ModulusUnique(n, s.frame, 0, n);
    }
  }

  // Over any interleaving of announced blocks and writes, no block is cut off, the output
  // stays whole frames, and what the device and the buffer hold is the blocks in order.
  lemma {:induction false} TurnsKeepBlocks(s: Sink, info: StreamInfo, turns: seq<Turn>)
    requires FlacSink(s, info) && AllAnnounced(turns, info)
    ensures var (t, proceed, bytes) := TakeTurns(s, info, turns);
      proceed && FlacSink(t, info) && Received(t) == Received(s) + bytes
    decreases |turns|
  {
    if turns != [] {
      assert turns[0] in turns;
      assert forall t :: t in turns[1..] ==> t in turns;
      TurnKeepsBlocks(s, info, turns[0]);
      var (t, _, bytes) := TakeTurn(s, info, turns[0]);
      TurnsKeepBlocks(t, info, turns[1..]);
      Associates(Received(s), bytes, TakeTurns(t, info, turns[1..]).2);
    }
  }

  lemma Associates(a: seq<byte>, b: seq<byte>, c: seq<byte>)
    ensures (a + b) + c == a + (b + c)
  {
  }

  lemma TurnKeepsBlocks(s: Sink, info: StreamInfo, turn: Turn)
    requires FlacSink(s, info) && (turn.Decoded? ==> Announced(turn.block, info))
    ensures var (t, proceed, bytes) := TakeTurn(s, info, turn);
      proceed && FlacSink(t, info) && Received(t) == Received(s) + bytes
  {
    match turn
    case Decoded(block) =>
      if !s.IsFull(info.BlockSize()) {
        DecodeKeepsFrames(s, info, block);
        WriteBlockExact(s.out, info, block);
      }
    case Played =>
      if !s.IsEmpty() {
        WriteKeepsFrames(s, info);
      }
  }
}
