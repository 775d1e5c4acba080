// What a WAV header says, by absolute offsets into the file; how the samples behind it are
// played; and with which code reading it fails.
module WavLaws {
  import opened Bytes
  import opened Kernel
  import opened RfStreams
  import opened StreamLaws
  import opened ErrorLaws
  import opened Pcm
  import opened WavHeaders

  // -- one contiguous run of bytes ----------------------------------------------------------------

  function Ascii(s: string): (bytes: seq<byte>)
    requires forall c :: c in s ==> c < 128 as char
    ensures |bytes| == |s| && forall i :: 0 <= i < |s| ==> bytes[i] == s[i] as int
  {
    if s == "" then []
    else
      assert s[0] in s && forall c :: c in s[1..] ==> c in s;
      var first: byte := s[0] as int;
      [first] + Ascii(s[1..])
  }

  lemma Markers()
    ensures RIFF == Ascii("RIFF") && RIFX == Ascii("RIFX") && WAVE == Ascii("WAVE")
    ensures FMT == Ascii("fmt ") && DATA == Ascii("data")
  {
  }

  // The first block is complete and carries its three markers.
  predicate Marked(bytes: seq<byte>) {
    && |bytes| >= 20 && (bytes[..4] == Ascii("RIFF") || bytes[..4] == Ascii("RIFX"))
    && bytes[8..12] == Ascii("WAVE") && bytes[12..16] == Ascii("fmt ")
  }

  function FmtEnd(bytes: seq<byte>): nat
    requires |bytes| >= 20
  {
    20 + Field(bytes, 16, 4)
  }

  // The format chunk has its common part, fits a buffer of cap bytes, and is complete.
  predicate HasFmt(bytes: seq<byte>, cap: nat) {
    Marked(bytes) && 36 <= FmtEnd(bytes) <= 20 + cap && FmtEnd(bytes) <= |bytes|
  }

  // What the format chunk says
  function Said(bytes: seq<byte>): Format
    requires |bytes| >= 36
  {
    Format(Field(bytes, 22, 2), Field(bytes, 24, 4), Field(bytes, 34, 2))
  }

  // It says PCM, and the byte rate and block size that follow from the rest.
  predicate Consistent(bytes: seq<byte>)
    requires |bytes| >= 36
  {
    var f := Said(bytes);
    && Field(bytes, 20, 2) == 1
    && Field(bytes, 28, 4) == f.samplesPerSec * f.channels * f.bitsPerSample % 0x1_0000_0000 / 8
    && Field(bytes, 32, 2) == f.channels * f.bitsPerSample / 8
  }

  // The data chunk follows the format chunk.
  predicate HasData(bytes: seq<byte>, cap: nat) {
    && HasFmt(bytes, cap) && Consistent(bytes) && FmtEnd(bytes) + 8 <= |bytes|
    && bytes[FmtEnd(bytes)..FmtEnd(bytes) + 4] == Ascii("data")
  }

  // Frames that can be counted: not empty, of samples of whole bytes
  predicate Countable(f: Format) {
    f.bitsPerSample % 8 == 0 && f.channels * f.bitsPerSample / 8 > 0
  }

  // The file ends before a block that all before it lead to.
  predicate CutShort(bytes: seq<byte>, cap: nat) {
    || |bytes| < 20
    || (Marked(bytes) && 36 <= FmtEnd(bytes) <= 20 + cap && |bytes| < FmtEnd(bytes))
    || (HasFmt(bytes, cap) && Consistent(bytes) && |bytes| < FmtEnd(bytes) + 8)
  }

  // The verdict on a file, for all bytes: EIO exactly if it is cut short, stopped exactly if
  // the format chunk exceeds the buffer or its frames cannot be counted, accepted exactly if
  // everything fits together, and EINVAL in all other cases. What is accepted is what the
  // fields say, with wide samples signed, and RIFX marked as big-endian.
  lemma ParseVerdict(bytes: seq<byte>, cap: nat)
    requires cap >= 20
    ensures var r := ParseWav(bytes, cap);
      && (r == Bad(EIO) <==> CutShort(bytes, cap))
      && (r.Trapped? <==>
            || (Marked(bytes) && 20 + cap < FmtEnd(bytes) && 36 <= FmtEnd(bytes))
            || (HasData(bytes, cap) && !Countable(Said(bytes))))
      && (r.Good? <==>
            && HasData(bytes, cap) && Countable(Said(bytes))
            && Field(bytes, FmtEnd(bytes) + 4, 4) % (Said(bytes).channels * Said(bytes).bitsPerSample / 8) == 0)
      && (r.Bad? ==> r.error == EIO || r.error == EINVAL)
      && (r.Good? ==> SaysSpec(bytes, r.value))
  {
    if |bytes| >= 20 {
      HeadVerdict(bytes);
      if Marked(bytes) && 36 <= FmtEnd(bytes) && FmtEnd(bytes) <= 20 + cap && FmtEnd(bytes) <= |bytes| {
        FmtVerdict(bytes, FmtEnd(bytes));
        if FmtEnd(bytes) + 8 <= |bytes| {
          DataVerdict(bytes, FmtEnd(bytes), Said(bytes));
        }
      }
    }
  }

  predicate SaysSpec(bytes: seq<byte>, spec: PcmSpec)
    requires |bytes| >= 36 && FmtEnd(bytes) + 8 <= |bytes|
  {
    var frame := spec.format.channels * spec.format.bitsPerSample / 8;
    && spec.format == Said(bytes) && frame > 0
    && spec.samplesCount == Field(bytes, FmtEnd(bytes) + 4, 4) / frame
    && (spec.bigEndian <==> bytes[..4] == Ascii("RIFX"))
    && (spec.signed <==> spec.format.bitsPerSample > 8)
  }

  lemma HeadVerdict(bytes: seq<byte>)
    requires |bytes| >= 20
    ensures CheckHeader(bytes[..20]) ==
      if Marked(bytes) then Good(Head(bytes[..4] == Ascii("RIFX"), FmtEnd(bytes) - 20)) else Bad(EINVAL)
  {
    Markers();
    var block := bytes[..20];
    assert block[..4] == bytes[..4] && block[8..12] == bytes[8..12];
    assert block[12..16] == bytes[12..16] && block[16..20] == bytes[16..20];
    assert RIFF[3] != RIFX[3];
  }

  lemma FmtVerdict(bytes: seq<byte>, end: nat)
    requires 36 <= end <= |bytes|
    ensures CheckFmt(bytes[20..][..end - 20]) == if Consistent(bytes) then Good(Said(bytes)) else Bad(EINVAL)
  {
    var block := bytes[20..][..end - 20];
    assert block[0..2] == bytes[20..22] && block[2..4] == bytes[22..24] && block[4..8] == bytes[24..28];
    assert block[8..12] == bytes[28..32] && block[12..14] == bytes[32..34] && block[14..16] == bytes[34..36];
  }

  lemma DataVerdict(bytes: seq<byte>, at: nat, format: Format)
    requires 20 <= at && at + 8 <= |bytes|
    ensures var size, frame := Field(bytes, at + 4, 4), format.channels * format.bitsPerSample / 8;
      CheckData(bytes[20..][at - 20..][..8], format) ==
        if bytes[at..at + 4] != Ascii("data") then Bad(EINVAL)
        else if !Countable(format) then Trapped
        else if size % frame != 0 then Bad(EINVAL) else Good(size / frame)
  {
    Markers();
    var block := bytes[20..][at - 20..][..8];
    assert block[..4] == bytes[at..at + 4] && block[4..8] == bytes[at + 4..at + 8];
  }

  // A header as it is found in the wild: two frames of 16-bit stereo at 44100 Hz
  predicate CommonHeader(bytes: seq<byte>) {
    && |bytes| == 44 && CommonNumbers(bytes)
    && bytes[..4] == Ascii("RIFF") && bytes[8..12] == Ascii("WAVE") && bytes[12..16] == Ascii("fmt ")
    && bytes[36..40] == Ascii("data")
  }

  predicate CommonNumbers(bytes: seq<byte>)
    requires |bytes| == 44
  {
    && bytes[16..20] == [16, 0, 0, 0] && bytes[20..24] == [1, 0, 2, 0] && bytes[24..28] == [0x44, 0xAC, 0, 0]
    && bytes[28..32] == [0x10, 0xB1, 2, 0] && bytes[32..36] == [4, 0, 16, 0]
    && bytes[40..] == [8, 0, 0, 0]
  }

  lemma KnownHeader(bytes: seq<byte>, cap: nat)
    requires CommonHeader(bytes) && cap >= 20
    ensures ParseWav(bytes, cap) == Good(PcmSpec(Format(2, 44100, 16), false, true, 2))
  {
    CommonFields(bytes);
    assert bytes[..4][3] != Ascii("RIFX")[3];
    ParseVerdict(bytes, cap);
  }

  lemma CommonFields(bytes: seq<byte>)
    requires |bytes| == 44 && CommonNumbers(bytes)
    ensures FmtEnd(bytes) == 36 && Said(bytes) == Format(2, 44100, 16)
    ensures Field(bytes, 20, 2) == 1 && Field(bytes, 28, 4) == 176400
    ensures Field(bytes, 32, 2) == 4 && Field(bytes, 40, 4) == 8
  {
    FourBytes(bytes, 16, [16, 0, 0, 0]);
    TwoAndTwo(bytes, 20, [1, 0, 2, 0]);
    FourBytes(bytes, 24, [0x44, 0xAC, 0, 0]);
    FourBytes(bytes, 28, [0x10, 0xB1, 2, 0]);
    TwoAndTwo(bytes, 32, [4, 0, 16, 0]);
    FourBytes(bytes, 40, [8, 0, 0, 0]);
  }

  lemma TwoAndTwo(bytes: seq<byte>, at: nat, fields: seq<byte>)
    requires at + 4 <= |bytes| && |fields| == 4 && bytes[at..at + 4] == fields
    ensures Field(bytes, at, 2) == fields[0] as int + 256 * fields[1] as int
    ensures Field(bytes, at + 2, 2) == fields[2] as int + 256 * fields[3] as int
  {
    TwoBytes(bytes, at);
    TwoBytes(bytes, at + 2);
    assert fields[0] == bytes[at] && fields[1] == bytes[at + 1];
    assert fields[2] == bytes[at + 2] && fields[3] == bytes[at + 3];
  }

  lemma TwoBytes(bytes: seq<byte>, at: nat)
    requires at + 2 <= |bytes|
    ensures Field(bytes, at, 2) == bytes[at] as int + 256 * bytes[at + 1] as int
  {
    var field := bytes[at..at + 2];
    assert field[1..] == [bytes[at + 1]];
    assert ToNat(field[1..]) == bytes[at + 1] as int + 256 * ToNat(field[1..][1..]);
  }

  lemma FourBytes(bytes: seq<byte>, at: nat, field: seq<byte>)
    requires at + 4 <= |bytes| && |field| == 4 && bytes[at..at + 4] == field
    ensures Field(bytes, at, 4) ==
      field[0] as int + 0x100 * field[1] as int + 0x1_0000 * field[2] as int + 0x100_0000 * field[3] as int
  {
    TwoBytes(field, 2);
    assert field[1..][1..] == field[2..4];
    assert ToNat(field[1..]) == field[1] as int + 256 * ToNat(field[1..][1..]);
  }

  // -- how samples are played -----------------------------------------------------------------------

  lemma {:induction false} ReversedAt(bytes: seq<byte>, k: nat)
    requires k < |bytes|
    ensures |Reversed(bytes)| == |bytes| && Reversed(bytes)[k] == bytes[|bytes| - 1 - k]
  {
    if |bytes| > 1 {
      ReversedAt(bytes[1..], if k < |bytes| - 1 then k else 0);
    }
  }

  lemma ReversedTwice(bytes: seq<byte>)
    ensures |Reversed(bytes)| == |bytes| && Reversed(Reversed(bytes)) == bytes
  {
    if bytes != [] {
      ReversedAt(bytes, 0);
      ReversedAt(Reversed(bytes), 0);
      forall k | 0 <= k < |bytes|
        ensures Reversed(Reversed(bytes))[k] == bytes[k]
      {
        ReversedAt(Reversed(bytes), k);
        ReversedAt(bytes, |bytes| - 1 - k);
      }
    }
  }

  // The number that a sample of a WAV file stands for, from its least significant byte on:
  // 8-bit samples are offset by 128, wider ones are in two's complement.
  function SampleValue(little: seq<byte>): int {
    if |little| == 1 then little[0] as int - 128 else ToInt(little)
  }

  // Of an accepted file of a playable width, every sample is played as that number: its bytes
  // are taken as they are from a RIFF file, and the other way round from a RIFX file.
  lemma PlayedAsStored(s: Stream, little: seq<byte>)
    requires s.Ok() && ReadWav(s).1.Good?
    requires var bits := ReadWav(s).1.value.format.bitsPerSample; bits in {8, 16, 24, 32} && bits == 8 * |little|
    ensures var spec := ReadWav(s).1.value;
      var format := GetPcmFormat(spec);
      && |s.Reachable()| >= 4 && (spec.bigEndian <==> s.Reachable()[..4] == Ascii("RIFX"))
      && |Reversed(little)| == |little| && format.Packed? && format.width == |little|
      && Level(format, if spec.bigEndian && |little| > 1 then Reversed(little) else little) == SampleValue(little)
  {
    ReadWavSound(s);
    ReadHeaderSound(s);
    ParseVerdict(s.Reachable(), s.buf.cap);
    PlayedValue(ReadWav(s).1.value, little);
  }

  lemma PlayedValue(spec: PcmSpec, little: seq<byte>)
    requires spec.format.bitsPerSample in {8, 16, 24, 32} && spec.format.bitsPerSample == 8 * |little|
    requires spec.signed <==> spec.format.bitsPerSample > 8
    ensures var format := GetPcmFormat(spec);
      && |Reversed(little)| == |little| && format.Packed? && format.width == |little|
      && Level(format, if spec.bigEndian && |little| > 1 then Reversed(little) else little) == SampleValue(little)
  {
    ReversedTwice(little);
    if |little| == 1 {
      assert ToNat(little) == little[0] as int + 256 * ToNat(little[1..]);
      Widths();
    }
  }

  // -- the codes of reading it ----------------------------------------------------------------------

  // The code of the first read of the three blocks that fails, or 0
  function WavCode(s: Stream): int
    requires s.Ok()
  {
    if s.buf.cap < HEADER_SIZE then 0
    else if FillCode(s, HEADER_SIZE) != 0 then FillCode(s, HEADER_SIZE)
    else
      var (t, head) := ReadHeader(s);
      if head.Good? then BodyCode(t, head.value.fmtLength) else 0
  }

  function BodyCode(s: Stream, length: nat): int
    requires s.Ok() && s.buf.cap >= HEADER_SIZE
  {
    if length < FMT_SIZE || s.buf.cap < length then 0
    else if FillCode(s, length) != 0 then FillCode(s, length)
    else
      var (t, format) := ReadFmt(s, length);
      if format.Good? then FillCode(t, DATA_SIZE) else 0
  }

  // Reading a header fails with that code, or else its verdict depends on the bytes alone.
  lemma ReadWavExactly(s: Stream)
    requires s.Ok()
    ensures ReadWav(s).1 == if WavCode(s) != 0 then Bad(WavCode(s)) else ParseWav(s.Reachable(), s.buf.cap)
  {
    if s.buf.cap >= HEADER_SIZE {
      ReadBlockCode(s, HEADER_SIZE);
      var (t, head) := ReadHeader(s);
      if ReadBlock(s, HEADER_SIZE).error == 0 {
        ReadBlockAdvances(s, HEADER_SIZE);
        if head.Good? {
          ReadBodyExactly(t, head.value);
        }
      }
    }
  }

  lemma ReadBodyExactly(s: Stream, head: Head)
    requires s.Ok() && s.buf.cap >= HEADER_SIZE
    ensures var (t, format) := ReadFmt(s, head.fmtLength);
      var parsed :=
        match format
        case Bad(error) => Bad(error)
        case Trapped => Trapped
        case Good(f) =>
          match ReadData(t, f).1
          case Bad(error) => Bad(error)
          case Trapped => Trapped
          case Good(samplesCount) => Good(Spec(head, f, samplesCount));
      parsed == if BodyCode(s, head.fmtLength) != 0 then Bad(BodyCode(s, head.fmtLength))
                else ParseFmt(s.Reachable(), s.buf.cap, head)
  {
    var length := head.fmtLength;
    if FMT_SIZE <= length <= s.buf.cap {
      ReadBlockCode(s, length);
      var (t, format) := ReadFmt(s, length);
      if ReadBlock(s, length).error == 0 {
        ReadBlockAdvances(s, length);
        if format.Good? {
          ReadBlockCode(t, DATA_SIZE);
          if ReadBlock(t, DATA_SIZE).error == 0 {
            ReadBlockAdvances(t, DATA_SIZE);
          }
        }
      }
    }
  }
}
