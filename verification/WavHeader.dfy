// The WAV header of pcm.c: three blocks read from the stream one after the other and
// checked field by field. Fields are read in host order, which is little-endian.
module WavHeaders {
  import opened Bytes
  import opened Kernel
  import opened RfStreams
  import opened StreamLaws
  import opened Pcm

  // Trapped: an assertion failed, or a remainder was taken by zero.
  datatype Checked<+T> = Good(value: T) | Bad(error: int) | Trapped

  datatype Head = Head(bigEndian: bool, fmtLength: nat)

  const RIFF: seq<byte> := [0x52, 0x49, 0x46, 0x46]
  const RIFX: seq<byte> := [0x52, 0x49, 0x46, 0x58]
  const WAVE: seq<byte> := [0x57, 0x41, 0x56, 0x45]
  const FMT: seq<byte> := [0x66, 0x6D, 0x74, 0x20]
  const DATA: seq<byte> := [0x64, 0x61, 0x74, 0x61]

  const HEADER_SIZE := 20
  const FMT_SIZE := 16
  const DATA_SIZE := 8

  // -- checks of single blocks -------------------------------------------------------

  function CheckHeader(block: seq<byte>): Checked<Head>
    requires |block| == HEADER_SIZE
  {
    if block[..4] != RIFF && block[..4] != RIFX then Bad(EINVAL)
    else if block[8..12] != WAVE then Bad(EINVAL)
    else if block[12..16] != FMT then Bad(EINVAL)
    else Good(Head(block[..4] != RIFF, Field(block, 16, 4)))
  }

  function CheckFmt(block: seq<byte>): Checked<Format>
    requires |block| >= FMT_SIZE
  {
    var format := Format(Field(block, 2, 2), Field(block, 4, 4), Field(block, 14, 2));
    if Field(block, 0, 2) != 1 then Bad(EINVAL)
    else if Field(block, 8, 4) != AvgBytesPerSec(format) then Bad(EINVAL)
    else if Field(block, 12, 2) != format.FrameSize() then Bad(EINVAL)
    else Good(format)
  }

  // The byte rate as computed in 32-bit unsigned arithmetic.
  function AvgBytesPerSec(f: Format): nat {
    (f.samplesPerSec * f.channels * f.bitsPerSample) % UINT32_LIMIT / 8
  }

  function CheckData(block: seq<byte>, format: Format): Checked<nat>
    requires |block| == DATA_SIZE
  {
    if block[..4] != DATA then Bad(EINVAL)
    else if format.bitsPerSample % 8 != 0 || format.FrameSize() == 0 then Trapped
    else if Field(block, 4, 4) % format.FrameSize() != 0 then Bad(EINVAL)
    else Good(Field(block, 4, 4) / format.FrameSize())
  }

  // -- reading and checking, through the stream ----------------------------------------

  function ReadHeader(s: Stream): (r: (Stream, Checked<Head>))
    requires s.Ok()
    ensures SameShape(s, r.0)
  {
    if s.buf.cap < HEADER_SIZE then (s, Trapped)
    else
      var r := ReadBlock(s, HEADER_SIZE);
      ReadBlockIsNextSlice(s, HEADER_SIZE);
      (r.stream, if r.error == 0 then CheckHeader(r.block) else Bad(r.error))
  }

  function ReadFmt(s: Stream, length: nat): (r: (Stream, Checked<Format>))
    requires s.Ok()
    ensures SameShape(s, r.0)
  {
    if length < FMT_SIZE then (s, Bad(EINVAL))
    else if s.buf.cap < length then (s, Trapped)
    else
      var r := ReadBlock(s, length);
      ReadBlockIsNextSlice(s, length);
      (r.stream, if r.error == 0 then CheckFmt(r.block) else Bad(r.error))
  }

  function ReadData(s: Stream, format: Format): (r: (Stream, Checked<nat>))
    requires s.Ok()
    ensures SameShape(s, r.0)
  {
    if s.buf.cap < DATA_SIZE then (s, Trapped)
    else
      var r := ReadBlock(s, DATA_SIZE);
      ReadBlockIsNextSlice(s, DATA_SIZE);
      (r.stream, if r.error == 0 then CheckData(r.block, format) else Bad(r.error))
  }

  function Spec(head: Head, format: Format, samplesCount: nat): PcmSpec {
    PcmSpec(format, head.bigEndian, format.bitsPerSample > 8, samplesCount)
  }

  // pcm_validate_wav_content
  function ReadWav(s: Stream): (r: (Stream, Checked<PcmSpec>))
    requires s.Ok()
    ensures SameShape(s, r.0)
  {
    var (s1, head) := ReadHeader(s);
    match head
    case Bad(error) => (s1, Bad(error))
    case Trapped => (s1, Trapped)
    case Good(h) =>
      var (s2, format) := ReadFmt(s1, h.fmtLength);
      match format
      case Bad(error) => (s2, Bad(error))
      case Trapped => (s2, Trapped)
      case Good(f) =>
        var (s3, samples) := ReadData(s2, f);
        match samples
        case Bad(error) => (s3, Bad(error))
        case Trapped => (s3, Trapped)
        case Good(n) => (s3, Good(Spec(h, f, n)))
  }

  // -- the validators, on the structure in memory -----------------------------------------

  // The view of the header is read out of the stream's buffer before any later call.
  method ValidateHeader(stream: RfStream) returns (result: Checked<Head>)
    requires stream.Valid()
    modifies stream, stream.buffer, stream.buffer.data, stream.descriptor
    ensures stream.Valid()
    ensures (stream.Value(), result) == ReadHeader(old(stream.Value()))
  {
    if stream.buffer.data.Length < HEADER_SIZE {
      return Trapped;
    }
    var error, at := stream.Read(HEADER_SIZE);
    if error != 0 {
      return Bad(error);
    }
    var header := stream.buffer.data[at..at + HEADER_SIZE];
    var bigEndian := false;
    if header[..4] == RIFF {
      bigEndian := false;
    } else if header[..4] == RIFX {
      bigEndian := true;
    } else {
      error := EINVAL;
    }
    if error == 0 && header[8..12] != WAVE {
      error := EINVAL;
    }
    if error == 0 && header[12..16] != FMT {
      error := EINVAL;
    }
    result := if error == 0 then Good(Head(bigEndian, Field(header, 16, 4))) else Bad(error);
  }

  method ValidateFmt(stream: RfStream, length: nat) returns (result: Checked<Format>)
    requires stream.Valid()
    modifies stream, stream.buffer, stream.buffer.data, stream.descriptor
    ensures stream.Valid()
    ensures (stream.Value(), result) == ReadFmt(old(stream.Value()), length)
  {
    if length < FMT_SIZE {
      return Bad(EINVAL);
    }
    if stream.buffer.data.Length < length {
      return Trapped;
    }
    var error, at := stream.Read(length);
    if error != 0 {
      return Bad(error);
    }
    var header := stream.buffer.data[at..at + length];
    if Field(header, 0, 2) != 1 {
      return Bad(EINVAL);
    }
    var channels, samplesPerSec, bits := Field(header, 2, 2), Field(header, 4, 4), Field(header, 14, 2);
    var expected := (samplesPerSec * channels * bits) % UINT32_LIMIT / 8;
    if Field(header, 8, 4) != expected {
      error := EINVAL;
    }
    if error == 0 && Field(header, 12, 2) != channels * bits / 8 {
      error := EINVAL;
    }
    result := if error == 0 then Good(Format(channels, samplesPerSec, bits)) else Bad(error);
  }

  method ValidateData(stream: RfStream, format: Format) returns (result: Checked<nat>)
    requires stream.Valid()
    modifies stream, stream.buffer, stream.buffer.data, stream.descriptor
    ensures stream.Valid()
    ensures (stream.Value(), result) == ReadData(old(stream.Value()), format)
  {
    if stream.buffer.data.Length < DATA_SIZE {
      return Trapped;
    }
    var error, at := stream.Read(DATA_SIZE);
    if error != 0 {
      return Bad(error);
    }
    var header := stream.buffer.data[at..at + DATA_SIZE];
    if header[..4] != DATA {
      return Bad(EINVAL);
    }
    if format.bitsPerSample % 8 != 0 {
      return Trapped;
    }
    var frameSize := format.FrameSize();
    if frameSize == 0 {
      return Trapped;
    }
    var dataSize := Field(header, 4, 4);
    result := if dataSize % frameSize != 0 then Bad(EINVAL) else Good(dataSize / frameSize);
  }

  method ValidateContent(stream: RfStream) returns (result: Checked<PcmSpec>)
    requires stream.Valid()
    modifies stream, stream.buffer, stream.buffer.data, stream.descriptor
    ensures stream.Valid()
    ensures (stream.Value(), result) == ReadWav(old(stream.Value()))
  {
    var head := ValidateHeader(stream);
    match head {
      case Bad(error) => return Bad(error);
      case Trapped => return Trapped;
      case Good(h) =>
        var format := ValidateFmt(stream, h.fmtLength);
        match format {
          case Bad(error) => return Bad(error);
          case Trapped => return Trapped;
          case Good(f) =>
            var samples := ValidateData(stream, f);
            match samples {
              case Bad(error) => return Bad(error);
              case Trapped => return Trapped;
              case Good(n) => return Good(Spec(h, f, n));
            }
        }
    }
  }

  // -- the meaning of a header, as one contiguous run of bytes --------------------------

  // What a file that starts with these bytes is, for a stream buffer of cap bytes.
  function ParseWav(bytes: seq<byte>, cap: nat): Checked<PcmSpec> {
    if cap < HEADER_SIZE then Trapped
    else if |bytes| < HEADER_SIZE then Bad(EIO)
    else
      match CheckHeader(bytes[..HEADER_SIZE])
      case Bad(error) => Bad(error)
      case Trapped => Trapped
      case Good(head) => ParseFmt(bytes[HEADER_SIZE..], cap, head)
  }

  function ParseFmt(bytes: seq<byte>, cap: nat, head: Head): Checked<PcmSpec>
    requires cap >= HEADER_SIZE
  {
    if head.fmtLength < FMT_SIZE then Bad(EINVAL)
    else if cap < head.fmtLength then Trapped
    else if |bytes| < head.fmtLength then Bad(EIO)
    else
      match CheckFmt(bytes[..head.fmtLength])
      case Bad(error) => Bad(error)
      case Trapped => Trapped
      case Good(format) => ParseData(bytes[head.fmtLength..], head, format)
  }

  function ParseData(bytes: seq<byte>, head: Head, format: Format): Checked<PcmSpec> {
    if |bytes| < DATA_SIZE then Bad(EIO)
    else
      match CheckData(bytes[..DATA_SIZE], format)
      case Bad(error) => Bad(error)
      case Trapped => Trapped
      case Good(samplesCount) => Good(Spec(head, format, samplesCount))
  }

  // The length of a header whose first block is complete.
  function HeaderLength(bytes: seq<byte>): nat
    requires |bytes| >= HEADER_SIZE
  {
    HEADER_SIZE + Field(bytes, 16, 4) + DATA_SIZE
  }

  // A header accepted through refills of any sizes is the one the file starts with, and
  // the stream then stands exactly behind it.
  lemma ReadWavSound(s: Stream)
    requires s.Ok() && ReadWav(s).1.Good?
    ensures var (t, parsed) := ReadWav(s);
      var bytes := s.Reachable();
      && parsed == ParseWav(bytes, s.buf.cap)
      && HEADER_SIZE <= HeaderLength(bytes) <= |bytes|
      && t.Rest() == s.Rest()[HeaderLength(bytes)..]
      && t.Reachable() == bytes[HeaderLength(bytes)..]
  {
    ReadHeaderSound(s);
    var (s1, head) := ReadHeader(s);
    var length := head.value.fmtLength + DATA_SIZE;
    ReadFmtSound(s1, head.value);
    DropTwice(s.Rest(), HEADER_SIZE, length);
    DropTwice(s.Reachable(), HEADER_SIZE, length);
  }

  lemma ReadHeaderSound(s: Stream)
    requires s.Ok() && ReadHeader(s).1.Good?
    ensures var (t, head) := ReadHeader(s);
      var bytes := s.Reachable();
      && HEADER_SIZE <= |bytes| && HEADER_SIZE <= s.buf.cap
      && head == CheckHeader(bytes[..HEADER_SIZE])
      && HeaderLength(bytes) == HEADER_SIZE + head.value.fmtLength + DATA_SIZE
      && t.Rest() == s.Rest()[HEADER_SIZE..] && t.Reachable() == bytes[HEADER_SIZE..]
  {
    ReadBlockAdvances(s, HEADER_SIZE);
    FmtLengthField(s.Reachable());
  }

  lemma FmtLengthField(bytes: seq<byte>)
    requires |bytes| >= HEADER_SIZE && CheckHeader(bytes[..HEADER_SIZE]).Good?
    ensures HeaderLength(bytes) == HEADER_SIZE + CheckHeader(bytes[..HEADER_SIZE]).value.fmtLength + DATA_SIZE
  {
    assert bytes[16..20] == bytes[..HEADER_SIZE][16..20];
  }

  lemma ReadFmtSound(s: Stream, head: Head)
    requires s.Ok() && ReadFmt(s, head.fmtLength).1.Good? && s.buf.cap >= HEADER_SIZE
    requires ReadData(ReadFmt(s, head.fmtLength).0, ReadFmt(s, head.fmtLength).1.value).1.Good?
    ensures var (t, format) := ReadFmt(s, head.fmtLength);
      var (u, samples) := ReadData(t, format.value);
      var bytes, length := s.Reachable(), head.fmtLength + DATA_SIZE;
      && ParseFmt(bytes, s.buf.cap, head) == Good(Spec(head, format.value, samples.value))
      && length <= |bytes| && u.Rest() == s.Rest()[length..] && u.Reachable() == bytes[length..]
  {
    ReadBlockAdvances(s, head.fmtLength);
    var (t, format) := ReadFmt(s, head.fmtLength);
    ReadBlockAdvances(t, DATA_SIZE);
    DropTwice(s.Rest(), head.fmtLength, DATA_SIZE);
    DropTwice(s.Reachable(), head.fmtLength, DATA_SIZE);
  }

  lemma DropTwice(bytes: seq<byte>, n: nat, m: nat)
    requires n + m <= |bytes|
    ensures bytes[n..][m..] == bytes[n + m..]
  {
  }

  // With no I/O failures the verdict on a file depends on
  // its bytes alone.
  lemma ReadWavExact(s: Stream)
    requires s.Ok() && Supplied(s)
    ensures ReadWav(s).1 == ParseWav(s.Reachable(), s.buf.cap)
  {
    if s.buf.cap >= HEADER_SIZE {
      ReadBlockExact(s, HEADER_SIZE);
      var (s1, head) := ReadHeader(s);
      if ReadBlock(s, HEADER_SIZE).error == 0 {
        ReadBlockAdvances(s, HEADER_SIZE);
        if head.Good? {
          ReadFmtExact(s1, head.value);
        }
      }
    }
  }

  lemma ReadFmtExact(s: Stream, head: Head)
    requires s.Ok() && Supplied(s) && s.buf.cap >= HEADER_SIZE
    ensures var (t, format) := ReadFmt(s, head.fmtLength);
      ParseFmt(s.Reachable(), s.buf.cap, head) ==
        match format
        case Bad(error) => Bad(error)
        case Trapped => Trapped
        case Good(f) =>
          match ReadData(t, f).1
          case Bad(error) => Bad(error)
          case Trapped => Trapped
          case Good(samplesCount) => Good(Spec(head, f, samplesCount))
  {
    var length := head.fmtLength;
    if FMT_SIZE <= length <= s.buf.cap {
      ReadBlockExact(s, length);
      var (t, format) := ReadFmt(s, length);
      if ReadBlock(s, length).error == 0 {
        ReadBlockAdvances(s, length);
        if format.Good? {
          ReadBlockExact(t, DATA_SIZE);
          if ReadBlock(t, DATA_SIZE).error == 0 {
            ReadBlockAdvances(t, DATA_SIZE);
          }
        }
      }
    }
  }

  // An accepted header describes a nonempty frame of whole bytes, whose size fits the
  // 16-bit field that repeats it.
  lemma AcceptedFrame(s: Stream)
    requires s.Ok() && ReadWav(s).1.Good?
    ensures var spec := ReadWav(s).1.value;
      && 0 < spec.format.FrameSize() < UINT16_LIMIT
      && spec.format.bitsPerSample % 8 == 0 && spec.format.channels > 0 && spec.format.bitsPerSample > 0
  {
    var (s1, head) := ReadHeader(s);
    var length := head.value.fmtLength;
    var block := ReadBlock(s1, length).block;
    ReadBlockIsNextSlice(s1, length);
    FieldBound(block, 12, 2);
  }

  lemma FieldBound(block: seq<byte>, at: nat, width: nat)
    requires at + width <= |block|
    ensures Field(block, at, width) < Pow256(width)
    ensures width == 2 ==> Field(block, at, width) < UINT16_LIMIT
  {
    ToNatBound(block[at..at + width]);
    Widths();
  }

  // Opening a file leaves the answers that playing it will need, and adds no hang-up.
  lemma ReadWavStaysGenerous(s: Stream)
    requires s.Ok() && Generous(s) && ReadWav(s).1.Good?
    ensures Generous(ReadWav(s).0)
  {
    ReadBlockStaysGenerous(s, HEADER_SIZE);
    var (s1, head) := ReadHeader(s);
    ReadBlockStaysGenerous(s1, head.value.fmtLength);
    var (s2, format) := ReadFmt(s1, head.value.fmtLength);
    ReadBlockStaysGenerous(s2, DATA_SIZE);
  }

  lemma ReadWavStaysComplete(s: Stream)
    requires s.Ok() && ReadWav(s).1.Good?
    ensures ReadWav(s).0.source.pollScript == s.source.pollScript
    ensures ClosedWhenDone(s) ==> ClosedWhenDone(ReadWav(s).0)
  {
    ReadBlockIsNextSlice(s, HEADER_SIZE);
    var (s1, head) := ReadHeader(s);
    ReadBlockIsNextSlice(s1, head.value.fmtLength);
    var (s2, format) := ReadFmt(s1, head.value.fmtLength);
    ReadBlockIsNextSlice(s2, DATA_SIZE);
  }

  // A header that is accepted says the same whatever the size of the buffer.
  lemma SameSpec(bytes: seq<byte>, cap: nat, other: nat)
    requires ParseWav(bytes, cap).Good? && ParseWav(bytes, other).Good?
    ensures ParseWav(bytes, cap) == ParseWav(bytes, other)
  {
  }
}
