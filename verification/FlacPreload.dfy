// The first period of a FLAC file: when the loop that counts frames lets a block through
// that does not fit any more.
module FlacPreload {
  import opened Bytes
  import opened Kernel
  import opened IoBuffers
  import opened Pipeline
  import opened Flac
  import opened FlacLaws

  ghost predicate OnlyAnnounced(blocks: seq<Block>, info: StreamInfo) {
    forall b :: b in blocks ==> Announced(b, info)
  }

  // Every sequence of announced blocks is taken from the start without an error.
  ghost predicate AlwaysPreloads(info: StreamInfo, cap: nat, period: nat)
    requires info.Supported() && cap < SIZE_LIMIT
  {
    forall blocks: seq<Block> ::
      OnlyAnnounced(blocks, info) ==> PreloadBlocks(Buf(cap, 0, []), info, period, blocks).1 == Returned(0)
  }

  // Whether all but one frame of a period, and the largest block, fit the output.
  predicate PeriodAndBlockFit(info: StreamInfo, cap: nat, period: nat) {
    period == 0 || info.maxBlocksize == 0 || (period - 1 + info.maxBlocksize) * info.format.FrameSize() <= cap
  }

  // In an output that pcm_decoder_flac_open allocates, preloading takes every file exactly
  // if all but one frame of the period, and the largest block, fit.
  lemma PeriodGuardSafe(info: StreamInfo, bufferSize: nat, period: nat)
    requires info.Supported() && 0 < bufferSize && OutputCapacity(bufferSize, info) < SIZE_LIMIT
    ensures var cap := OutputCapacity(bufferSize, info);
      AlwaysPreloads(info, cap, period) <==> PeriodAndBlockFit(info, cap, period)
  {
    var cap := OutputCapacity(bufferSize, info);
    FramePositive(info);
    if PeriodAndBlockFit(info, cap, period) {
      forall blocks: seq<Block> | OnlyAnnounced(blocks, info)
        ensures PreloadBlocks(Buf(cap, 0, []), info, period, blocks).1 == Returned(0)
      {
        NothingCutOff(Buf(cap, 0, []), info, period, 0, blocks);
      }
    } else {
      TooLongAPeriod(info, cap, period);
    }
  }

  // From n whole frames on
  lemma {:induction false} NothingCutOff(out: Buf, info: StreamInfo, period: nat, n: nat, blocks: seq<Block>)
    requires out.Ok() && out.cap > 0 && info.Supported() && PeriodAndBlockFit(info, out.cap, period)
    requires |out.unread| == n * info.format.FrameSize() && (info.maxBlocksize == 0 ==> n == 0)
    requires OnlyAnnounced(blocks, info)
    ensures PreloadBlocks(out, info, period, blocks).1 == Returned(0)
    decreases |blocks|
  {
    var frame := info.format.FrameSize();
    FramePositive(info);
    ModulusUnique(|out.unread|, frame, n, 0);
    if blocks != [] && n < period {
      var b := blocks[0];
      assert b in blocks;
      assert forall c :: c in blocks[1..] ==> c in blocks;
      RoomForBlock(info, out.cap, period, n, b.blocksize);
      WriteBlockExact(out, info, b);
      assert (n + b.blocksize) * frame == n * frame + b.blocksize * frame;
      NothingCutOff(WriteBlock(out, info, b).0, info, period, n + b.blocksize, blocks[1..]);
    }
  }

  lemma RoomForBlock(info: StreamInfo, cap: nat, period: nat, n: nat, size: nat)
    requires info.Supported() && cap > 0 && PeriodAndBlockFit(info, cap, period)
    requires n < period && size <= info.maxBlocksize && (info.maxBlocksize == 0 ==> n == 0)
    ensures n * info.format.FrameSize() + size * info.format.FrameSize() <= cap
    ensures n * info.format.FrameSize() < cap
  {
    var frame := info.format.FrameSize();
    FramePositive(info);
    PeriodAndBlock(info, period);
    FewerItems(size, info.maxBlocksize, frame);
    FewerItems(n, period - 1, frame);
    if info.maxBlocksize > 0 {
      FewerItems(1, info.maxBlocksize, frame);
    }
  }

  lemma PeriodAndBlock(info: StreamInfo, period: nat)
    requires period > 0
    ensures (period - 1 + info.maxBlocksize) * info.format.FrameSize()
      == (period - 1) * info.format.FrameSize() + info.BlockSize()
  {
  }

  // What preloading leaves: of the blocks decoded, it has appended the first n whole and in
  // order. It has succeeded if there are no more or a period is buffered; otherwise the
  // output is full, which fails the decoder's assertion, or block n is refused, for its
  // format or for want of room, which is EINVAL.
  ghost predicate Preloaded(
    out: Buf, info: StreamInfo, period: nat, blocks: seq<Block>, n: nat, after: Buf, ending: Ending)
    requires info.Supported() && info.SampleSize() <= 4 && info.format.FrameSize() > 0
    requires n <= |blocks| && forall b :: b in blocks ==> b.WellFormed()
  {
    var kept := out.unread + EncodedBlocks(blocks[..n], info.SampleSize());
    var buffered := |kept| / info.format.FrameSize() >= period;
    && (forall b :: b in blocks[..n] ==> b.format == info.format)
    && (if n == |blocks| || buffered then ending == Returned(0)
        else if |kept| == out.cap then ending == Aborted
        else
          && ending == Returned(EINVAL)
          && (blocks[n].format != info.format || |kept| + blocks[n].blocksize * info.format.FrameSize() > out.cap))
    && (if ending == Returned(EINVAL) then kept <= after.unread else after.unread == kept)
  }

  lemma {:induction false} PreloadBlocksExactly(out: Buf, info: StreamInfo, period: nat, blocks: seq<Block>)
    returns (n: nat)
    requires out.Ok() && info.Supported() && forall b :: b in blocks ==> b.WellFormed()
    ensures n <= |blocks| && info.SampleSize() <= 4 && info.format.FrameSize() > 0
    ensures var (t, ending) := PreloadBlocks(out, info, period, blocks);
      Preloaded(out, info, period, blocks, n, t, ending)
    decreases |blocks|
  {
    FramePositive(info);
    FrameOfSamples(info);
    n := 0;
    assert out.unread + EncodedBlocks(blocks[..0], info.SampleSize()) == out.unread;
    if blocks != [] && |out.unread| / info.format.FrameSize() < period && out.Available() > 0 {
      assert blocks[0] in blocks;
      WriteBlockExact(out, info, blocks[0]);
      var (next, proceed) := WriteBlock(out, info, blocks[0]);
      if proceed {
        var m := PreloadBlocksExactly(next, info, period, blocks[1..]);
        var (t, ending) := PreloadBlocks(next, info, period, blocks[1..]);
        OneBlockMore(out, next, info, period, blocks, m, t, ending);
        n := m + 1;
      }
    }
  }

  lemma OneBlockMore(
    out: Buf, next: Buf, info: StreamInfo, period: nat, blocks: seq<Block>, m: nat, after: Buf, ending: Ending)
    requires info.Supported() && info.SampleSize() <= 4 && info.format.FrameSize() > 0
    requires m < |blocks| && forall b :: b in blocks ==> b.WellFormed()
    requires blocks[0].format == info.format && next.cap == out.cap
    requires blocks[0] in blocks && next.unread == out.unread + Encoded(blocks[0], info.SampleSize())
    requires Preloaded(next, info, period, blocks[1..], m, after, ending)
    ensures Preloaded(out, info, period, blocks, m + 1, after, ending)
  {
    var size := info.SampleSize();
    assert blocks[..m + 1][0] == blocks[0] && blocks[..m + 1][1..] == blocks[1..][..m];
    Joins(out.unread, Encoded(blocks[0], size), EncodedBlocks(blocks[1..][..m], size));
    assert forall b :: b in blocks[..m + 1] ==> b == blocks[0] || b in blocks[1..][..m];
  }

  lemma Joins(a: seq<byte>, b: seq<byte>, c: seq<byte>)
    ensures a + (b + c) == (a + b) + c
  {
  }

  // The bytes of blocks, one after the other
  function EncodedBlocks(blocks: seq<Block>, size: nat): seq<byte>
    requires size <= 4 && forall b :: b in blocks ==> b.WellFormed()
  {
    if blocks == [] then [] else Encoded(blocks[0], size) + EncodedBlocks(blocks[1..], size)
  }

  // A block of silence
  function Silence(info: StreamInfo, blocksize: nat): (b: Block)
    requires info.Supported() && blocksize <= info.maxBlocksize
    ensures Announced(b, info) && b.blocksize == blocksize
  {
    Block(info.format, blocksize, seq(info.format.channels, _ => seq(blocksize, _ => 0)))
  }

  // k blocks of a frame each, and then one of the largest size
  function FramesThenBlock(info: StreamInfo, k: nat): (blocks: seq<Block>)
    requires info.Supported() && info.maxBlocksize > 0
    ensures |blocks| == k + 1 && forall b :: b in blocks ==> Announced(b, info)
  {
    if k == 0 then [Silence(info, info.maxBlocksize)] else [Silence(info, 1)] + FramesThenBlock(info, k - 1)
  }

  // With j frames buffered, k more that fit, and no room for the largest block behind them,
  // the block is let through and does not fit.
  lemma {:induction false} LastBlockCutOff(out: Buf, info: StreamInfo, period: nat, j: nat, k: nat)
    requires out.Ok() && info.Supported() && info.maxBlocksize > 0 && j + k < period
    requires |out.unread| == j * info.format.FrameSize()
    requires (j + k) * info.format.FrameSize() <= out.cap < (j + k) * info.format.FrameSize() + info.BlockSize()
    ensures PreloadBlocks(out, info, period, FramesThenBlock(info, k)).1 != Returned(0)
    decreases k
  {
    var frame, blocks := info.format.FrameSize(), FramesThenBlock(info, k);
    FramePositive(info);
    ModulusUnique(|out.unread|, frame, j, 0);
    WriteBlockExact(out, info, blocks[0]);
    if k > 0 {
      FewerItems(j + 1, j + k, frame);
      assert (j + 1) * frame == j * frame + frame;
      assert blocks[1..] == FramesThenBlock(info, k - 1);
      LastBlockCutOff(WriteBlock(out, info, blocks[0]).0, info, period, j + 1, k - 1);
    }
  }

  lemma TooLongAPeriod(info: StreamInfo, cap: nat, period: nat)
    requires info.Supported() && info.BlockSize() <= cap < SIZE_LIMIT && !PeriodAndBlockFit(info, cap, period)
    ensures !AlwaysPreloads(info, cap, period)
  {
    var frame := info.format.FrameSize();
    FramePositive(info);
    PeriodAndBlock(info, period);
    FewerItems(1, info.maxBlocksize, frame);
    var k := FramesBefore(info.BlockSize(), frame, cap, period);
    LastBlockCutOff(Buf(cap, 0, []), info, period, 0, k);
    assert OnlyAnnounced(FramesThenBlock(info, k), info);
  }

  // A number of frames, fewer than a period, behind which the block does not fit.
  lemma FramesBefore(block: nat, frame: nat, cap: nat, period: nat) returns (k: nat)
    requires 0 < frame <= block <= cap && period > 0 && (period - 1) * frame + block > cap
    ensures k < period && k * frame <= cap < k * frame + block
  {
    var room := cap - block;
    ItemsThatFit(room, frame, period - 1);
    WholeItemsFit(room, frame, room / frame);
    k := room / frame + 1;
  }
}
