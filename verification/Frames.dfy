/** The packets of the gateway stream, and the byte stream a list of them makes. */
module Frames {
  import opened Bytes
  import GP = GatewayProto
  import CS = CryptoStream

  /** One packet on the USB stream: the init, or a media header followed by its payload. */
  datatype Frame =
    | InitFrame(info: GP.InitInfo)
    | MediaFrame(streamId: byte, flags: byte, seqNo: u32, payload: Payload)

  /** A payload whose length the header can carry. */
  type Payload = p: seq<byte> | |p| < 0x1_0000_0000

  function MediaInfoOf(f: Frame): GP.MediaInfo
    requires f.MediaFrame?
  {
    GP.MediaInfo(f.streamId, f.flags, f.seqNo, |f.payload|)
  }

  function FrameBytes(f: Frame): (b: seq<byte>)
    ensures |b| >= 16
  {
    match f
    case InitFrame(info) => GP.InitBytes(info)
    case MediaFrame(_, _, _, payload) => GP.MediaHeaderBytes(MediaInfoOf(f)) + payload
  }

  function StreamBytes(frames: seq<Frame>): seq<byte> {
    if frames == [] then [] else FrameBytes(frames[0]) + StreamBytes(frames[1..])
  }

  lemma {:induction false} StreamBytesAppend(xs: seq<Frame>, ys: seq<Frame>)
    ensures StreamBytes(xs + ys) == StreamBytes(xs) + StreamBytes(ys)
  {
    if xs == [] {
      assert xs + ys == ys;
    } else {
      assert (xs + ys)[1..] == xs[1..] + ys;
      StreamBytesAppend(xs[1..], ys);
    }
  }

  lemma {:induction false} StreamBytesSnoc(xs: seq<Frame>, f: Frame)
    ensures StreamBytes(xs + [f]) == StreamBytes(xs) + FrameBytes(f)
  {
    StreamBytesAppend(xs, [f]);
    assert StreamBytes([f]) == FrameBytes(f) + StreamBytes([]);
  }

  // The relay's frames

  const VFG1: seq<byte> := [0x56, 0x46, 0x47, 0x31]

  const FRAGMENT_HEADER_SIZE: nat := 16

  predicate IsFragment(payload: seq<byte>) {
    |payload| >= FRAGMENT_HEADER_SIZE && payload[..4] == VFG1
  }

  /** The flags of a video payload: copied from a fragment header, else derived from the NAL type. */
  function VideoFlags(payload: seq<byte>): byte {
    if payload == [] then 0
    else if IsFragment(payload) then payload[4]
    else NalFlags(payload)
  }

  function NalFlags(payload: seq<byte>): byte {
    if payload == [] then 0
    else
      var nalType := payload[0] as int % 32;
      if nalType == 5 then GP.FLAG_KEYFRAME
      else if nalType == 7 || nalType == 8 then GP.FLAG_CONFIG
      else 0
  }

  /** "USBRelayV1!!" */
  const USB_NONCE: CS.Nonce := [0x55, 0x53, 0x42, 0x52, 0x65, 0x6C, 0x61, 0x79, 0x56, 0x31, 0x21, 0x21]

  function FlagsOf(p: CS.Plain): byte {
    if p.streamId == GP.STREAM_VIDEO then VideoFlags(p.data) else 0
  }

  function RelayPayload(ks: CS.Keystream, p: CS.Plain): seq<byte> {
    if p.data == [] then [] else CS.Encrypt(ks, USB_NONCE, p)
  }

  /** A packet without data goes out as its header alone; any other is eight bytes longer than its data. */
  lemma RelaySize(ks: CS.Keystream, p: CS.Plain)
    requires |p.data| + CS.HEADER_SIZE < TWO_TO_32
    ensures |FrameBytes(RelayFrame(ks, p))| == GP.PACKET_HEADER_SIZE + if p.data == [] then 0 else 8 + |p.data|
  {}

  /** The frame the relay makes of a decrypted upstream packet. */
  function RelayFrame(ks: CS.Keystream, p: CS.Plain): Frame
    requires |p.data| + CS.HEADER_SIZE < TWO_TO_32
  {
    MediaFrame(p.streamId, FlagsOf(p), p.seqNo, RelayPayload(ks, p))
  }
}
