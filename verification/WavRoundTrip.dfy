// Printing a WAV header and reading it back.
module WavRoundTrip {
  import opened Bytes
  import opened Kernel
  import opened RfStreams
  import opened StreamLaws
  import opened Pcm
  import opened WavHeaders

  // What a header says. `rifx` tells which marker it starts with; the fields are in host
  // order in either case. `extension` is the part of the fmt chunk behind its 16 common
  // bytes, `overallSize` the size field that follows the marker.
  datatype Content = Content(
    rifx: bool, format: Format, samplesCount: nat, overallSize: nat, extension: seq<byte>)
  {
    function FmtLength(): nat {
      FMT_SIZE + |extension|
    }

    function DataSize(): nat {
      samplesCount * format.FrameSize()
    }

    function BitRate(): nat {
      format.samplesPerSec * format.channels * format.bitsPerSample
    }

    function ByteRate(): nat {
      BitRate() / 8
    }

    function Spec(): PcmSpec {
      WavHeaders.Spec(Head(rifx, FmtLength()), format, samplesCount)
    }

    // Each quantity fits its field.
    predicate Storable() {
      && format.channels < UINT16_LIMIT && format.bitsPerSample < UINT16_LIMIT
      && format.samplesPerSec < UINT32_LIMIT && format.FrameSize() < UINT16_LIMIT
      && ByteRate() < UINT32_LIMIT
      && DataSize() < UINT32_LIMIT && overallSize < UINT32_LIMIT && FmtLength() < UINT32_LIMIT
    }

    // And samples are a whole number of bytes, and frames have some.
    predicate Printable() {
      Storable() && WholeFrames()
    }

    predicate WholeFrames() {
      format.bitsPerSample % 8 == 0 && format.FrameSize() > 0
    }
  }

  function PrintHeader(c: Content): (block: seq<byte>)
    ensures |block| == HEADER_SIZE
  {
    (if c.rifx then RIFX else RIFF) + FromNat(c.overallSize, 4) + WAVE + FMT + FromNat(c.FmtLength(), 4)
  }

  function PrintFmt(c: Content): (block: seq<byte>)
    ensures |block| == c.FmtLength()
  {
    FromNat(1, 2) + FromNat(c.format.channels, 2) + FromNat(c.format.samplesPerSec, 4)
    + FromNat(c.ByteRate(), 4) + FromNat(c.format.FrameSize(), 2) + FromNat(c.format.bitsPerSample, 2)
    + c.extension
  }

  function PrintData(c: Content): (block: seq<byte>)
    ensures |block| == DATA_SIZE
  {
    DATA + FromNat(c.DataSize(), 4)
  }

  function PrintWav(c: Content): (bytes: seq<byte>)
    ensures |bytes| == HEADER_SIZE + c.FmtLength() + DATA_SIZE
  {
    PrintHeader(c) + PrintFmt(c) + PrintData(c)
  }

  lemma HeaderReadsBack(c: Content)
    requires c.Storable()
    ensures CheckHeader(PrintHeader(c)) == Good(Head(c.rifx, c.FmtLength()))
  {
    var block := PrintHeader(c);
    assert block[..4] == (if c.rifx then RIFX else RIFF) && block[8..12] == WAVE && block[12..16] == FMT;
    Widths();
    FieldOfPrinted(block, 16, 4, c.FmtLength());
  }

  // The byte rate of the file is compared with one computed in 32 bits, so the format
  // is accepted exactly if the rate in bits does not overflow.
  lemma FmtReadsBack(c: Content)
    requires c.Storable()
    ensures CheckFmt(PrintFmt(c)) ==
      if c.BitRate() < UINT32_LIMIT
      then Good(c.format) else Bad(EINVAL)
  {
    var block := PrintFmt(c);
    Widths();
    FmtFields(c);
    RateWraps(c.BitRate());
  }

  lemma FmtFields(c: Content)
    requires c.Storable()
    ensures SaysFormat(PrintFmt(c), c)
  {
    var block := PrintFmt(c);
    Widths();
    assert block[0..2] == FromNat(1, 2);
    FieldOfPrinted(block, 0, 2, 1);
    assert block[2..4] == FromNat(c.format.channels, 2);
    FieldOfPrinted(block, 2, 2, c.format.channels);
    assert block[4..8] == FromNat(c.format.samplesPerSec, 4);
    FieldOfPrinted(block, 4, 4, c.format.samplesPerSec);
    assert block[8..12] == FromNat(c.ByteRate(), 4);
    FieldOfPrinted(block, 8, 4, c.ByteRate());
    assert block[12..14] == FromNat(c.format.FrameSize(), 2);
    FieldOfPrinted(block, 12, 2, c.format.FrameSize());
    assert block[14..16] == FromNat(c.format.bitsPerSample, 2);
    FieldOfPrinted(block, 14, 2, c.format.bitsPerSample);
  }

  lemma RateWraps(bitRate: nat)
    ensures bitRate % UINT32_LIMIT / 8 == bitRate / 8 <==> bitRate < UINT32_LIMIT
  {
  }

  lemma DataReadsBack(c: Content)
    requires c.Storable()
    ensures CheckData(PrintData(c), c.format) == if c.WholeFrames() then Good(c.samplesCount) else Trapped
  {
    var block := PrintData(c);
    assert block[..4] == DATA && block[4..8] == FromNat(c.DataSize(), 4);
    Widths();
    FieldOfPrinted(block, 4, 4, c.DataSize());
    if c.WholeFrames() {
      ModulusUnique(c.DataSize(), c.format.FrameSize(), c.samplesCount, 0);
    }
  }

  lemma DataRoundTrip(c: Content, body: seq<byte>, head: Head)
    requires c.Storable()
    ensures ParseData(PrintData(c) + body, head, c.format) ==
      if c.WholeFrames() then Good(WavHeaders.Spec(head, c.format, c.samplesCount)) else Trapped
  {
    SplitAtSeam(PrintData(c), body);
    DataReadsBack(c);
  }

  lemma FmtRoundTrip(c: Content, body: seq<byte>, cap: nat, head: Head)
    requires c.Storable() && cap >= HEADER_SIZE && head.fmtLength == c.FmtLength()
    ensures ParseFmt(PrintFmt(c) + (PrintData(c) + body), cap, head) ==
      if cap < c.FmtLength() then Trapped
      else if c.BitRate() >= UINT32_LIMIT then Bad(EINVAL)
      else if c.WholeFrames() then Good(WavHeaders.Spec(head, c.format, c.samplesCount))
      else Trapped
  {
    SplitAtSeam(PrintFmt(c), PrintData(c) + body);
    FmtReadsBack(c);
    DataRoundTrip(c, body, head);
  }

  // A printed header followed by any body is rejected exactly if its bit rate does not fit
  // 32 bits. It stops the program if the fmt chunk is longer than the stream's buffer, or
  // if it says that samples are not whole bytes or frames are empty. In all other cases it
  // reads back as the content it was printed from.
  lemma RoundTrip(c: Content, body: seq<byte>, cap: nat)
    requires c.Storable() && cap >= HEADER_SIZE
    ensures ParseWav(PrintWav(c) + body, cap) ==
      if cap < c.FmtLength() then Trapped
      else if c.BitRate() >= UINT32_LIMIT then Bad(EINVAL)
      else if c.WholeFrames() then Good(c.Spec())
      else Trapped
  {
    var rest := PrintFmt(c) + (PrintData(c) + body);
    assert PrintWav(c) + body == PrintHeader(c) + rest;
    SplitAtSeam(PrintHeader(c), rest);
    HeaderReadsBack(c);
    FmtRoundTrip(c, body, cap, Head(c.rifx, c.FmtLength()));
  }

  // A file of 64 channels at 4 MHz says what it is in fields that hold it, and is rejected.
  lemma OverflowingRate(body: seq<byte>, cap: nat)
    requires cap >= HEADER_SIZE
    ensures var c := Content(false, Format(64, 4_194_304, 16), 0, 0, []);
      c.Printable() && ParseWav(PrintWav(c) + body, cap) == Bad(EINVAL)
  {
    var c := Content(false, Format(64, 4_194_304, 16), 0, 0, []);
    RoundTrip(c, body, cap);
  }

  // A header of 12-bit samples whose other fields agree with them stops the program.
  lemma TwelveBits(body: seq<byte>, cap: nat)
    requires cap >= HEADER_SIZE
    ensures var c := Content(false, Format(2, 8000, 12), 0, 0, []);
      c.Storable() && ParseWav(PrintWav(c) + body, cap) == Trapped
  {
    RoundTrip(Content(false, Format(2, 8000, 12), 0, 0, []), body, cap);
  }

  // The same through a stream: however the file is cut into reads, the content comes
  // back and the stream is left at the first byte of the body.
  lemma RoundTripThroughStream(c: Content, body: seq<byte>, s: Stream)
    requires c.Printable() && c.FmtLength() <= s.buf.cap && HEADER_SIZE <= s.buf.cap
    requires c.BitRate() < UINT32_LIMIT
    requires s.Ok() && s.Reachable() == PrintWav(c) + body
    requires Supplied(s)
    ensures var (t, parsed) := ReadWav(s);
      && parsed == Good(c.Spec())
      && t.Reachable() == body
  {
    RoundTrip(c, body, s.buf.cap);
    ReadWavExact(s);
    ReadWavSound(s);
    PrintedLength(c, body);
    assert s.Reachable()[|PrintWav(c)|..] == body;
  }

  lemma PrintedLength(c: Content, body: seq<byte>)
    requires c.Storable()
    ensures HeaderLength(PrintWav(c) + body) == |PrintWav(c)|
  {
    var bytes := PrintWav(c) + body;
    assert bytes[16..20] == PrintHeader(c)[16..20] == FromNat(c.FmtLength(), 4);
    Widths();
    FieldOfPrinted(bytes, 16, 4, c.FmtLength());
  }

  lemma SplitAtSeam(a: seq<byte>, b: seq<byte>)
    ensures (a + b)[..|a|] == a && (a + b)[|a|..] == b
  {
  }

  // -- every accepted header is a printed one -----------------------------------------------

  lemma FieldPrints(block: seq<byte>, at: nat, width: nat)
    requires at + width <= |block|
    ensures FromNat(Field(block, at, width), width) == block[at..at + width]
    ensures width == 2 ==> Field(block, at, width) < UINT16_LIMIT
    ensures width == 4 ==> Field(block, at, width) < UINT32_LIMIT
  {
    ToNatFromNat(block[at..at + width]);
    ToNatBound(block[at..at + width]);
    Widths();
  }

  lemma FiveParts(block: seq<byte>, a: nat, b: nat, c: nat, d: nat)
    requires a <= b <= c <= d <= |block|
    ensures block == block[..a] + block[a..b] + block[b..c] + block[c..d] + block[d..]
  {
  }

  lemma HeaderIsPrinted(block: seq<byte>, c: Content)
    requires |block| == HEADER_SIZE && CheckHeader(block) == Good(Head(c.rifx, c.FmtLength()))
    requires c.overallSize == Field(block, 4, 4)
    ensures PrintHeader(c) == block && c.overallSize < UINT32_LIMIT && c.FmtLength() < UINT32_LIMIT
  {
    FieldPrints(block, 4, 4);
    FieldPrints(block, 16, 4);
    FiveParts(block, 4, 8, 12, 16);
  }

  // What an accepted format chunk says, field by field
  ghost predicate SaysFormat(block: seq<byte>, c: Content)
    requires |block| >= FMT_SIZE
  {
    && Field(block, 0, 2) == 1 && Field(block, 2, 2) == c.format.channels
    && Field(block, 4, 4) == c.format.samplesPerSec && Field(block, 8, 4) == c.ByteRate()
    && Field(block, 12, 2) == c.format.FrameSize() && Field(block, 14, 2) == c.format.bitsPerSample
  }

  lemma AcceptedFormat(block: seq<byte>, c: Content)
    requires |block| >= FMT_SIZE && CheckFmt(block) == Good(c.format) && c.BitRate() < UINT32_LIMIT
    ensures SaysFormat(block, c)
  {
    RateWraps(c.BitRate());
  }

  lemma FmtIsPrinted(block: seq<byte>, c: Content)
    requires |block| == c.FmtLength() && SaysFormat(block, c) && c.extension == block[FMT_SIZE..]
    ensures PrintFmt(c) == block && c.format.FrameSize() < UINT16_LIMIT
    ensures c.format.channels < UINT16_LIMIT && c.format.bitsPerSample < UINT16_LIMIT
    ensures c.format.samplesPerSec < UINT32_LIMIT
  {
    FieldPrints(block, 0, 2);
    FieldPrints(block, 2, 2);
    FieldPrints(block, 4, 4);
    FieldPrints(block, 8, 4);
    FieldPrints(block, 12, 2);
    FieldPrints(block, 14, 2);
    FmtParts(block);
  }

  lemma FmtParts(block: seq<byte>)
    requires |block| >= FMT_SIZE
    ensures block == block[..2] + block[2..4] + block[4..8] + block[8..12] + block[12..14] + block[14..16] + block[16..]
  {
  }

  lemma DataIsPrinted(block: seq<byte>, c: Content)
    requires |block| == DATA_SIZE && CheckData(block, c.format) == Good(c.samplesCount)
    ensures PrintData(c) == block && c.DataSize() < UINT32_LIMIT
    ensures c.WholeFrames()
  {
    FieldPrints(block, 4, 4);
    var size, frame := Field(block, 4, 4), c.format.FrameSize();
    assert size == frame * (size / frame) + size % frame;
    assert c.DataSize() == frame * (size / frame);
    assert block == block[..4] + block[4..8];
  }

  ghost predicate IsPrinted(header: seq<byte>, spec: PcmSpec) {
    exists c: Content :: c.Printable() && header == PrintWav(c) && spec == c.Spec()
  }

  // The content of an accepted header.
  function Reading(bytes: seq<byte>, cap: nat): (c: Content)
    requires ParseWav(bytes, cap).Good?
  {
    var spec := ParseWav(bytes, cap).value;
    var length := Field(bytes, 16, 4);
    FmtLengthField(bytes);
    Content(spec.bigEndian, spec.format, spec.samplesCount,
            Field(bytes, 4, 4), bytes[HEADER_SIZE + FMT_SIZE..HEADER_SIZE + length])
  }

  // The three blocks of an accepted header, and what each was found to say.
  lemma AcceptedBlocks(bytes: seq<byte>, cap: nat)
    requires ParseWav(bytes, cap).Good?
    ensures var c, length := Reading(bytes, cap), HEADER_SIZE + Field(bytes, 16, 4);
      && length + DATA_SIZE == HeaderLength(bytes) <= |bytes| && length == HEADER_SIZE + c.FmtLength()
      && CheckHeader(bytes[..HEADER_SIZE]) == Good(Head(c.rifx, c.FmtLength()))
      && CheckFmt(bytes[HEADER_SIZE..length]) == Good(c.format)
      && CheckData(bytes[length..length + DATA_SIZE], c.format) == Good(c.samplesCount)
      && ParseWav(bytes, cap).value == c.Spec()
  {
    var c, length := Reading(bytes, cap), HEADER_SIZE + Field(bytes, 16, 4);
    FmtLengthField(bytes);
    assert bytes[HEADER_SIZE..][..c.FmtLength()] == bytes[HEADER_SIZE..length];
    assert bytes[HEADER_SIZE..][c.FmtLength()..][..DATA_SIZE] == bytes[length..length + DATA_SIZE];
  }

  lemma ReadingIsPrinted(bytes: seq<byte>, cap: nat)
    requires ParseWav(bytes, cap).Good? && Reading(bytes, cap).BitRate() < UINT32_LIMIT
    ensures HeaderLength(bytes) <= |bytes|
    ensures IsPrinted(bytes[..HeaderLength(bytes)], ParseWav(bytes, cap).value)
  {
    AcceptedBlocks(bytes, cap);
    var c, length := Reading(bytes, cap), HEADER_SIZE + Field(bytes, 16, 4);
    var header, fmt, data := bytes[..HEADER_SIZE], bytes[HEADER_SIZE..length], bytes[length..length + DATA_SIZE];
    assert header[4..8] == bytes[4..8] && c.extension == fmt[FMT_SIZE..];
    BlocksArePrinted(header, fmt, data, c);
    assert bytes[..HeaderLength(bytes)] == header + fmt + data;
  }

  lemma BlocksArePrinted(header: seq<byte>, fmt: seq<byte>, data: seq<byte>, c: Content)
    requires |header| == HEADER_SIZE && CheckHeader(header) == Good(Head(c.rifx, c.FmtLength()))
    requires |fmt| == c.FmtLength() && CheckFmt(fmt) == Good(c.format)
    requires |data| == DATA_SIZE && CheckData(data, c.format) == Good(c.samplesCount)
    requires c.overallSize == Field(header, 4, 4) && c.extension == fmt[FMT_SIZE..] && c.BitRate() < UINT32_LIMIT
    ensures c.Printable() && PrintWav(c) == header + fmt + data
  {
    HeaderIsPrinted(header, c);
    AcceptedFormat(fmt, c);
    FmtIsPrinted(fmt, c);
    DataIsPrinted(data, c);
  }

  lemma PrintedFitsRate(c: Content, body: seq<byte>, cap: nat)
    requires c.Printable() && ParseWav(PrintWav(c) + body, cap).Good?
    ensures c.BitRate() < UINT32_LIMIT
  {
    RoundTrip(c, body, cap);
  }

  lemma PrintedFits(bytes: seq<byte>, cap: nat)
    requires ParseWav(bytes, cap).Good? && HeaderLength(bytes) <= |bytes|
    requires IsPrinted(bytes[..HeaderLength(bytes)], ParseWav(bytes, cap).value)
    ensures Reading(bytes, cap).BitRate() < UINT32_LIMIT
  {
    var length, spec := HeaderLength(bytes), ParseWav(bytes, cap).value;
    var c: Content :| c.Printable() && bytes[..length] == PrintWav(c) && spec == c.Spec();
    assert bytes == PrintWav(c) + bytes[length..];
    PrintedFitsRate(c, bytes[length..], cap);
    assert Reading(bytes, cap).format == c.format;
  }

  // An accepted header is the print of what was read from it exactly if its bit rate
  // fits 32 bits; beyond that, only wrong byte rates are accepted.
  lemma AcceptedIsPrinted(bytes: seq<byte>, cap: nat)
    requires ParseWav(bytes, cap).Good?
    ensures HeaderLength(bytes) <= |bytes|
    ensures IsPrinted(bytes[..HeaderLength(bytes)], ParseWav(bytes, cap).value)
      <==> Reading(bytes, cap).BitRate() < UINT32_LIMIT
  {
    AcceptedBlocks(bytes, cap);
    if Reading(bytes, cap).BitRate() < UINT32_LIMIT {
      ReadingIsPrinted(bytes, cap);
    }
    if IsPrinted(bytes[..HeaderLength(bytes)], ParseWav(bytes, cap).value) {
      PrintedFits(bytes, cap);
    }
  }
}
