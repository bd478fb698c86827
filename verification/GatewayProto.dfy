/** The init packet and the media header of the gateway stream (wsh264/src/gateway_proto.c). */
module GatewayProto {
  import opened Bytes

  const INIT_MAGIC: u32 := 0x4757_4931
  const PACKET_MAGIC: u32 := 0x4757_5031
  const VERSION: byte := 1
  const VIDEO_CODEC_H264_ANNEXB: byte := 1
  const AUDIO_CODEC_PCM_S16LE: byte := 1
  const STREAM_VIDEO: byte := 1
  const FLAG_KEYFRAME: byte := 1
  const FLAG_CONFIG: byte := 2
  const INIT_SIZE: nat := 16
  const PACKET_HEADER_SIZE: nat := 16

  datatype InitInfo = InitInfo(version: byte, videoCodec: byte, audioCodec: byte, audioChannels: byte,
                               audioSampleRate: u32, audioSampleBits: u16)

  datatype MediaInfo = MediaInfo(streamId: byte, flags: byte, seqNo: u32, payloadLen: u32)

  function DefaultInit(): InitInfo {
    InitInfo(VERSION, VIDEO_CODEC_H264_ANNEXB, AUDIO_CODEC_PCM_S16LE, 1, 16000, 16)
  }

  // The bytes of each header

  function InitBytes(info: InitInfo): (b: seq<byte>)
    ensures |b| == INIT_SIZE
  {
    Be32(INIT_MAGIC) + [info.version, info.videoCodec, info.audioCodec, info.audioChannels]
    + Be32(info.audioSampleRate) + Be16(info.audioSampleBits) + Be16(0)
  }

  function MediaHeaderBytes(info: MediaInfo): (b: seq<byte>)
    ensures |b| == PACKET_HEADER_SIZE
  {
    Be32(PACKET_MAGIC) + [info.streamId, info.flags] + Be16(0) + Be32(info.seqNo) + Be32(info.payloadLen)
  }

  // Readers

  function ReadInit(b: seq<byte>): Option<InitInfo>
    requires |b| >= INIT_SIZE
  {
    if ReadBe32(b) != INIT_MAGIC then None
    else Some(InitInfo(b[4], b[5], b[6], b[7], ReadBe32(b[8..]), ReadBe16(b[12..])))
  }

  function ReadMediaHeader(b: seq<byte>): Option<MediaInfo>
    requires |b| >= PACKET_HEADER_SIZE
  {
    if ReadBe32(b) != PACKET_MAGIC then None
    else Some(MediaInfo(b[4], b[5], ReadBe32(b[8..]), ReadBe32(b[12..])))
  }

  /** Where the fields of an init stand, in the order of `gateway_proto.h`. */
  lemma InitLayout(info: InitInfo)
    ensures var b := InitBytes(info);
            && b[..4] == [0x47, 0x57, 0x49, 0x31] // "GWI1"
            && b[4] == info.version && b[5] == info.videoCodec && b[6] == info.audioCodec && b[7] == info.audioChannels
            && ReadBe32(b[8..]) == info.audioSampleRate && ReadBe16(b[12..]) == info.audioSampleBits && b[14..] == [0, 0]
  {
    var b := InitBytes(info);
    InitRoundTrip(info, []);
    assert b + [] == b;
  }

  /** The init of every session, byte by byte: version 1, H.264, PCM of one channel, 16000 samples of 16 bits. */
  lemma DefaultInitIs()
    ensures InitBytes(DefaultInit()) == [0x47, 0x57, 0x49, 0x31, 1, 1, 1, 1, 0, 0, 0x3E, 0x80, 0, 16, 0, 0]
  {}

  /** And those of a media header. */
  lemma MediaHeaderLayout(info: MediaInfo)
    ensures var b := MediaHeaderBytes(info);
            && b[..4] == [0x47, 0x57, 0x50, 0x31] // "GWP1"
            && b[4] == info.streamId && b[5] == info.flags && b[6..8] == [0, 0]
            && ReadBe32(b[8..]) == info.seqNo && ReadBe32(b[12..]) == info.payloadLen
  {
    var b := MediaHeaderBytes(info);
    MediaHeaderRoundTrip(info, []);
    assert b + [] == b;
  }

  /** Reading what was written gives it back; and an init is never read as a media header. */
  lemma {:induction false} InitRoundTrip(info: InitInfo, tail: seq<byte>)
    ensures ReadInit(InitBytes(info) + tail) == Some(info)
    ensures ReadMediaHeader(InitBytes(info) + tail) == None
  {
    var b := InitBytes(info) + tail;
    Be32ThenRead(INIT_MAGIC, b[4..]);
    assert b == Be32(INIT_MAGIC) + b[4..];
    Be32ThenRead(info.audioSampleRate, b[12..]);
    assert b[8..] == Be32(info.audioSampleRate) + b[12..];
    assert b[12..][0] == info.audioSampleBits / 0x100 && b[12..][1] == info.audioSampleBits % 0x100;
  }

  /** Reading what was written gives it back; and a media header is never read as an init. */
  lemma {:induction false} MediaHeaderRoundTrip(info: MediaInfo, tail: seq<byte>)
    ensures ReadMediaHeader(MediaHeaderBytes(info) + tail) == Some(info)
    ensures ReadInit(MediaHeaderBytes(info) + tail) == None
  {
    var b := MediaHeaderBytes(info) + tail;
    Be32ThenRead(PACKET_MAGIC, b[4..]);
    assert b == Be32(PACKET_MAGIC) + b[4..];
    Be32ThenRead(info.seqNo, b[12..]);
    assert b[8..] == Be32(info.seqNo) + b[12..];
    Be32ThenRead(info.payloadLen, b[16..]);
    assert b[12..] == Be32(info.payloadLen) + b[16..];
  }

  // The writers fill a caller's buffer field by field

  method WriteInit(out: array<byte>, info: InitInfo)
    requires out.Length >= INIT_SIZE
    modifies out
    ensures out[..] == InitBytes(info) + old(out[INIT_SIZE..])
  {
    hide Be16, Be32;
    ghost var magic := Be32(INIT_MAGIC);
    ghost var codecs := magic + [info.version, info.videoCodec, info.audioCodec, info.audioChannels];
    ghost var rate := codecs + Be32(info.audioSampleRate);
    ghost var bits := rate + Be16(info.audioSampleBits);
    PutNext(out, 0, Be32(INIT_MAGIC), [], INIT_SIZE);
    PutNext(out, 4, [info.version, info.videoCodec, info.audioCodec, info.audioChannels], magic, INIT_SIZE);
    PutNext(out, 8, Be32(info.audioSampleRate), codecs, INIT_SIZE);
    PutNext(out, 12, Be16(info.audioSampleBits), rate, INIT_SIZE);
    PutNext(out, 14, Be16(0), bits, INIT_SIZE);
    SplitAt(out[..], INIT_SIZE);
    assert out[..][..INIT_SIZE] == out[..INIT_SIZE] && out[..][INIT_SIZE..] == out[INIT_SIZE..];
  }

  method WriteMediaHeader(out: array<byte>, info: MediaInfo)
    requires out.Length >= PACKET_HEADER_SIZE
    modifies out
    ensures out[..] == MediaHeaderBytes(info) + old(out[PACKET_HEADER_SIZE..])
  {
    hide Be16, Be32;
    ghost var magic := Be32(PACKET_MAGIC);
    ghost var ids := magic + [info.streamId, info.flags];
    ghost var reserved := ids + Be16(0);
    ghost var seqNo := reserved + Be32(info.seqNo);
    PutNext(out, 0, Be32(PACKET_MAGIC), [], PACKET_HEADER_SIZE);
    PutNext(out, 4, [info.streamId, info.flags], magic, PACKET_HEADER_SIZE);
    PutNext(out, 6, Be16(0), ids, PACKET_HEADER_SIZE);
    PutNext(out, 8, Be32(info.seqNo), reserved, PACKET_HEADER_SIZE);
    PutNext(out, 12, Be32(info.payloadLen), seqNo, PACKET_HEADER_SIZE);
    SplitAt(out[..], PACKET_HEADER_SIZE);
    assert out[..][..PACKET_HEADER_SIZE] == out[..PACKET_HEADER_SIZE];
    assert out[..][PACKET_HEADER_SIZE..] == out[PACKET_HEADER_SIZE..];
  }
}
