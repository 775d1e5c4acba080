// Sample formats: what a stream says of its samples, and how a device told so reads them.
module Pcm {
  import opened Bytes

  datatype Format = Format(channels: nat, samplesPerSec: nat, bitsPerSample: nat) {
    // pcm_frame_size, of a sample width it accepts
    function FrameSize(): nat {
      channels * bitsPerSample / 8
    }
  }

  datatype PcmSpec = PcmSpec(format: Format, bigEndian: bool, signed: bool, samplesCount: nat)

  // The formats that get_pcm_format tells ALSA; those of one byte have no byte order.
  datatype DeviceFormat = Packed(width: nat, signed: bool, bigEndian: bool) | Unsupported

  // get_pcm_format
  function GetPcmFormat(spec: PcmSpec): DeviceFormat {
    match spec.format.bitsPerSample
    case 8 => Packed(1, spec.signed, false)
    case 16 => Packed(2, spec.signed, spec.bigEndian)
    case 24 => Packed(3, spec.signed, spec.bigEndian)
    case 32 => Packed(4, spec.signed, spec.bigEndian)
    case _ => Unsupported
  }

  function Reversed(bytes: seq<byte>): seq<byte> {
    if bytes == [] then [] else Reversed(bytes[1..]) + [bytes[0]]
  }

  // The level a device plays for the bytes of a sample: unsigned formats have their zero in
  // the middle of the range.
  function Level(format: DeviceFormat, bytes: seq<byte>): int
    requires format.Packed? && |bytes| == format.width
  {
    var little := if format.bigEndian then Reversed(bytes) else bytes;
    if format.signed then ToInt(little) else ToNat(little) - Pow256(format.width) / 2
  }
}
