// The bytes of FLAC samples read back, the channels they come from, and the bytes that
// are fed to libFLAC.
module FlacSamples {
  import opened Bytes
  import opened Kernel
  import opened RfStreams
  import opened IoBuffers
  import opened StreamLaws
  import opened ErrorLaws
  import opened Pcm
  import opened Flac
  import opened FlacLaws

  // -- single samples -----------------------------------------------------------------------

  lemma {:induction false} FromNatPrefix(n: nat, width: nat, size: nat)
    requires size <= width
    ensures FromNat(n, width)[..size] == FromNat(n, size)
  {
    if size > 0 {
      FromNatPrefix(n / 256, width - 1, size - 1);
      var bs := FromNat(n, width);
      assert bs[..size] == [bs[0]] + bs[1..][..size - 1];
    }
  }

  // The signed samples of `size` bytes.
  predicate Fits(sample: int, size: nat) {
    0 <= 2 * sample + Pow256(size) && 2 * sample < Pow256(size)
  }

  lemma EncodedValue(sample: int, size: nat)
    requires 0 < size <= 4
    ensures ToNat(EncodeSample(sample, size)) == sample % Pow256(size)
  {
    var n := sample % UINT32_LIMIT;
    FromNatPrefix(n, 4, size);
    FromNatToNat(n, size);
    WidthDivides(size);
    NestedModulus(sample, Pow256(size), Pow256(4 - size));
  }

  lemma WidthDivides(size: nat)
    requires 0 < size <= 4
    ensures Pow256(size) * Pow256(4 - size) == UINT32_LIMIT
  {
    Widths();
    assert size == 1 || size == 2 || size == 3 || size == 4;
  }

  lemma NestedModulus(x: int, p: nat, q: nat)
    requires p > 0 && q > 0 && p * q > 0
    ensures x % (p * q) % p == x % p
  {
    var a, r := x / (p * q), x % (p * q);
    var b, s := r / p, r % p;
    assert x == p * (q * a + b) + s by {
      assert x == (p * q) * a + r && r == p * b + s;
      assert (p * q) * a == p * (q * a);
      assert p * (q * a + b) == p * (q * a) + p * b;
    }
    ModulusUnique(x, p, q * a + b, s);
  }

  // Read as little-endian two's complement, the bytes of a sample give it back exactly
  // if it fits its width.
  lemma SampleReadsBack(sample: int, size: nat)
    requires 0 < size <= 4
    ensures ToInt(EncodeSample(sample, size)) == sample <==> Fits(sample, size)
  {
    EncodedValue(sample, size);
    Widths();
    assert size == 1 || size == 2 || size == 3 || size == 4;
    TwosComplement(sample, Pow256(size));
  }

  lemma TwosComplement(x: int, p: nat)
    requires p > 0
    ensures var n := x % p; (if 2 * n >= p then n - p else n) == x <==> 0 <= 2 * x + p && 2 * x < p
  {
    if 0 <= 2 * x + p && 2 * x < p {
      ModulusUnique(x, p, if x < 0 then -1 else 0, if x < 0 then x + p else x);
    }
  }

  // The level the device plays for a sample, from the bytes appended and the format that
  // the stream information leads to.
  function PlayedLevel(info: StreamInfo, sample: int): int
    requires info.Supported()
  {
    EightBitSteps(info);
    Level(GetPcmFormat(info.Spec()), EncodeSample(sample, info.SampleSize()))
  }

  lemma EightBitSteps(info: StreamInfo)
    requires info.Supported()
    ensures var bits := info.format.bitsPerSample; bits == 8 || bits == 16 || bits == 24 || bits == 32
  {
  }

  // A sample that fits its width is played at its own level if and only if it is wider
  // than 8 bits: 8-bit samples are appended in two's complement, but declared unsigned.
  lemma PlayedAsDecoded(info: StreamInfo, sample: int)
    requires info.Supported() && Fits(sample, info.SampleSize())
    ensures PlayedLevel(info, sample) == sample <==> info.format.bitsPerSample > 8
  {
    EightBitSteps(info);
    SampleReadsBack(sample, info.SampleSize());
    EncodedValue(sample, info.SampleSize());
    Widths();
  }

  // Silence of 8-bit FLAC is played at the lowest level.
  lemma EightBitSilence(info: StreamInfo)
    requires info.Supported() && info.format.bitsPerSample == 8
    ensures PlayedLevel(info, 0) == -128
  {
    EncodedValue(0, 1);
    Widths();
  }

  // -- blocks -------------------------------------------------------------------------------

  // The samples in a run of bytes; a remainder shorter than a sample is ignored.
  function Decode(bytes: seq<byte>, size: nat): seq<int>
    requires size > 0
    decreases |bytes|
  {
    if |bytes| < size then [] else [ToInt(bytes[..size])] + Decode(bytes[size..], size)
  }

  ghost predicate AllFit(samples: seq<int>, size: nat) {
    forall x :: x in samples ==> Fits(x, size)
  }

  lemma {:induction false} DecodeEncoded(samples: seq<int>, size: nat)
    requires 0 < size <= 4 && AllFit(samples, size)
    ensures Decode(EncodeAll(samples, size), size) == samples
  {
    if samples != [] {
      var bytes := EncodeAll(samples, size);
      SampleReadsBack(samples[0], size);
      DecodeEncoded(samples[1..], size);
      assert bytes[..size] == EncodeSample(samples[0], size) && bytes[size..] == EncodeAll(samples[1..], size);
    }
  }

  lemma {:induction false} MonoRows(b: Block, i: nat)
    requires b.WellFormed() && b.format.channels == 1 && i <= b.blocksize
    ensures Rows(b, i) == b.samples[0][i..]
    decreases b.blocksize - i
  {
    if i < b.blocksize {
      MonoRows(b, i + 1);
      assert Copies(b.samples[0][i], 1) == [b.samples[0][i]];
    }
  }

  // A mono block is read back from what it appends to the output.
  lemma MonoReadsBack(b: Block, size: nat)
    requires b.WellFormed() && b.format.channels == 1 && 0 < size <= 4 && AllFit(b.samples[0], size)
    ensures Decode(Encoded(b, size), size) == b.samples[0]
  {
    MonoRows(b, 0);
    DecodeEncoded(b.samples[0], size);
  }

  // Of any block, what is read back is the first channel, each of its samples once for every
  // channel: sample k is that of the instant k / channels.
  lemma FirstChannelReadsBack(b: Block, size: nat, k: nat)
    requires b.WellFormed() && 0 < size <= 4 && AllFit(b.samples[0], size)
    requires k < b.blocksize * b.format.channels
    ensures var samples := Decode(Encoded(b, size), size);
      && |samples| == b.blocksize * b.format.channels && k / b.format.channels < b.blocksize
      && samples[k] == b.samples[0][k / b.format.channels]
  {
    RowsLength(b, 0);
    FirstChannelFits(b, 0, size);
    DecodeEncoded(Rows(b, 0), size);
    ItemsThatFit(k, b.format.channels, b.blocksize);
    RowsAt(b, 0, k);
  }

  lemma {:induction false} FirstChannelFits(b: Block, i: nat, size: nat)
    requires b.WellFormed() && i <= b.blocksize && AllFit(b.samples[0], size)
    ensures AllFit(Rows(b, i), size)
    decreases b.blocksize - i
  {
    if i < b.blocksize {
      FirstChannelFits(b, i + 1, size);
      assert b.samples[0][i] in b.samples[0];
    }
  }

  lemma {:induction false} RowsAt(b: Block, i: nat, k: nat)
    requires b.WellFormed() && i + k / b.format.channels < b.blocksize && k < |Rows(b, i)|
    ensures Rows(b, i)[k] == b.samples[0][i + k / b.format.channels]
    decreases b.blocksize - i
  {
    var c := b.format.channels;
    if k < c {
      ModulusUnique(k, c, 0, k);
    } else {
      assert k == c * (k / c) + k % c;
      assert c * (k / c - 1) == c * (k / c) - c;
      ModulusUnique(k - c, c, k / c - 1, k % c);
      RowsAt(b, i + 1, k - c);
    }
  }

  // The samples of all channels at one instant.
  function Column(b: Block, i: nat, c: nat): (samples: seq<int>)
    requires b.WellFormed() && i < b.blocksize && c <= b.format.channels
    ensures |samples| == b.format.channels - c
    ensures forall k :: c <= k < b.format.channels ==> samples[k - c] == b.samples[k][i]
    decreases b.format.channels - c
  {
    if c == b.format.channels then [] else [b.samples[c][i]] + Column(b, i, c + 1)
  }

  // The samples of a block, interleaved from the row i on as the device expects them.
  function Interleaved(b: Block, i: nat): seq<int>
    requires b.WellFormed() && i <= b.blocksize
    decreases b.blocksize - i
  {
    if i == b.blocksize then [] else Column(b, i, 0) + Interleaved(b, i + 1)
  }

  ghost predicate ChannelsAgree(b: Block, i: nat)
    requires b.WellFormed()
  {
    forall k, c :: i <= k < b.blocksize && 0 <= c < b.format.channels ==> b.samples[c][k] == b.samples[0][k]
  }

  lemma {:induction false} RowsInterleaved(b: Block, i: nat)
    requires b.WellFormed() && i <= b.blocksize
    ensures Rows(b, i) == Interleaved(b, i) <==> ChannelsAgree(b, i)
    ensures |Rows(b, i)| == |Interleaved(b, i)|
    decreases b.blocksize - i
  {
    if i < b.blocksize {
      RowsInterleaved(b, i + 1);
      var copies, column := Copies(b.samples[0][i], b.format.channels), Column(b, i, 0);
      if Rows(b, i) == Interleaved(b, i) {
        assert copies == Rows(b, i)[..b.format.channels] && Rows(b, i + 1) == Rows(b, i)[b.format.channels..];
        assert column == Interleaved(b, i)[..b.format.channels];
        assert Interleaved(b, i + 1) == Interleaved(b, i)[b.format.channels..];
        forall k, c | i <= k < b.blocksize && 0 <= c < b.format.channels
          ensures b.samples[c][k] == b.samples[0][k]
        {
          if k == i {
            assert column[c] == copies[c];
          }
        }
      }
      if ChannelsAgree(b, i) {
        forall c | 0 <= c < b.format.channels
          ensures copies[c] == column[c]
        {
          assert b.samples[c][i] == b.samples[0][i];
        }
        assert copies == column;
      }
    }
  }

  // The output is the interleaved block exactly if every channel carries the samples of
  // the first one.
  lemma InterleavedExactly(b: Block, size: nat)
    requires b.WellFormed() && 0 < size <= 4
    requires forall c :: 0 <= c < b.format.channels ==> AllFit(b.samples[c], size)
    ensures Encoded(b, size) == EncodeAll(Interleaved(b, 0), size) <==> ChannelsAgree(b, 0)
  {
    RowsInterleaved(b, 0);
    RowsFit(b, 0, size);
    DecodeEncoded(Rows(b, 0), size);
    DecodeEncoded(Interleaved(b, 0), size);
  }

  // One instant of two channels that differ is written wrongly.
  lemma TwoChannelsDiffer()
    ensures var b := Block(Format(2, 44100, 16), 1, [[1], [2]]);
      b.WellFormed() && Encoded(b, 2) != EncodeAll(Interleaved(b, 0), 2)
  {
    var b := Block(Format(2, 44100, 16), 1, [[1], [2]]);
    assert b.samples[1][0] != b.samples[0][0];
    Widths();
    InterleavedExactly(b, 2);
  }

  lemma {:induction false} RowsFit(b: Block, i: nat, size: nat)
    requires b.WellFormed() && i <= b.blocksize
    requires forall c :: 0 <= c < b.format.channels ==> AllFit(b.samples[c], size)
    ensures AllFit(Rows(b, i), size) && AllFit(Interleaved(b, i), size)
    decreases b.blocksize - i
  {
    if i < b.blocksize {
      RowsFit(b, i + 1, size);
      assert b.samples[0][i] in b.samples[0];
      forall x | x in Column(b, i, 0)
        ensures Fits(x, size)
      {
        var c :| 0 <= c < b.format.channels && x == Column(b, i, 0)[c];
        assert b.samples[c][i] in b.samples[c];
      }
    }
  }

  // -- feeding libFLAC ------------------------------------------------------------------------

  lemma {:induction false} PollUntilAnsweredKeeps(s: Stream)
    requires s.Ok() && s.open && s.buf.unread == []
    ensures var (t, error) := PollUntilAnswered(s);
      && t.Rest() == s.Rest() && error != EAGAIN
      && (error == 0 ==> (t.open <==> t.buf.unread != []))
      && (error != 0 ==> t.buf.unread == [])
      && (NoLoneHangUp(s.source) ==> Complete(t))
    decreases |s.source.pollScript|
  {
    PollAndRefillKeepsBytes(s);
    PollAndRefillComplete(s);
    PollConsumed(s);
    var (t, error) := PollAndRefill(s);
    if error == EAGAIN {
      PollUntilAnsweredKeeps(t);
    }
  }

  // The code with which polling ends: that of the first poll that is not a request to try
  // again, or of the read that it leads to
  function AnswerCode(s: Stream): int
    requires s.Ok() && s.open && s.buf.Available() > 0
    decreases |s.source.pollScript|
  {
    PollAndRefillKeepsBytes(s);
    PollConsumed(s);
    ReadSourceExactly(s);
    if PollCode(s.source) == EAGAIN then AnswerCode(PollAndRefill(s).0) else PollCode(s.source)
  }

  lemma {:induction false} PollUntilAnsweredExactly(s: Stream)
    requires s.Ok() && s.open && s.buf.Available() > 0
    ensures PollUntilAnswered(s).1 == AnswerCode(s)
    decreases |s.source.pollScript|
  {
    PollAndRefillKeepsBytes(s);
    PollConsumed(s);
    ReadSourceExactly(s);
    if PollCode(s.source) == EAGAIN {
      PollUntilAnsweredExactly(PollAndRefill(s).0);
    }
  }

  // However many polls time out, and however often the read is interrupted, libFLAC is then
  // handed what the read brings, or told of the end of the file.
  lemma {:induction false} FeedAfterTimeouts(
    s: Stream, size: nat, timeouts: nat, hungUp: bool, polls: seq<PollAnswer>,
    interruptions: nat, n: nat, later: seq<ReadAnswer>)
    requires s.Ok() && s.open && s.buf.unread == [] && size > 0 && n > 0
    requires s.source.pollScript == seq(timeouts, _ => TimedOut) + [Events(true, hungUp)] + polls
    requires s.source.readScript == seq(interruptions, _ => Failed(EINTR)) + [Transferred(n)] + later
    ensures var (t, status, bytes) := FeedDecoder(s, size);
      var count := Min(Min(s.maxRead, RoomBehind(s.buf)), Min(n, |s.source.file|));
      && bytes == s.source.file[..Min(size, count)] && t.source.pollScript == polls
      && status == if s.source.file == [] then EndOfStream else Continue
    decreases timeouts
  {
    var script := s.source.pollScript;
    var polled := s.source.(pollScript := script[1..]);
    if timeouts == 0 {
      assert script[0] == Events(true, hungUp) && script[1..] == polls;
      RefillExact(s.buf, s.maxRead, polled, interruptions, n, later);
    } else {
      assert script[0] == TimedOut;
      assert script[1..] == seq(timeouts - 1, _ => TimedOut) + [Events(true, hungUp)] + polls;
      FeedAfterTimeouts(s.(source := polled), size, timeouts - 1, hungUp, polls, interruptions, n, later);
    }
  }

  // libFLAC is handed the next bytes of the file, in order and each once, and reading is
  // given up only on an error. It is told that the stream has ended only with nothing of it
  // left, unless the descriptor reports a hang-up alone while bytes are left.
  lemma FeedIsNextSlice(s: Stream, n: nat)
    requires s.Ok() && n > 0 && (s.buf.unread == [] ==> s.open)
    ensures var (t, status, bytes) := FeedDecoder(s, n);
      && bytes + t.Rest() == s.Rest() && |bytes| <= n
      && (s.buf.unread != [] ==> bytes == s.buf.unread[..Min(n, |s.buf.unread|)] && t.source == s.source)
      && (status == Continue <==> bytes != [])
      && (status == EndOfStream ==> t.IsEmpty())
      && (status == EndOfStream && NoLoneHangUp(s.source) ==> s.Rest() == [])
      && (status == Abort <==> s.buf.unread == [] && AnswerCode(s) != 0)
  {
    if s.buf.unread != [] {
      SplitAt(s.buf.unread, s.source.file, Min(n, |s.buf.unread|));
    } else {
      PollUntilAnsweredKeeps(s);
      PollUntilAnsweredExactly(s);
      var (t, error) := PollUntilAnswered(s);
      if error == 0 && t.buf.unread != [] {
        SplitAt(t.buf.unread, t.source.file, Min(n, |t.buf.unread|));
      }
    }
  }
}
