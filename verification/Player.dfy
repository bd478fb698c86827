/**
  The player's network thread (gateway_client/gateway_client.cpp): read, decrypt, and bring video
  payloads to the packet queue. It runs here until the stream ends.
 */
module Player {
  import opened Bytes
  import opened Frames
  import opened HostReader
  import GP = GatewayProto
  import CS = CryptoStream
  import VF = VideoFragments
  import VQ = VideoQueue
  import AnnexB

  /** A media payload that passed decryption, under the header it came with. */
  datatype Delivery = Delivery(streamId: byte, flags: byte, seqNo: u32, payload: seq<byte>)

  /**
    The plaintext of a media frame whose inner stream and sequence number agree with its header; its
    length has to be a positive `int`.
   */
  function DecryptMedia(ks: CS.Keystream, f: Frame): Option<Delivery>
    requires f.MediaFrame?
  {
    if f.payload == [] then Some(Delivery(f.streamId, f.flags, f.seqNo, []))
    else if |f.payload| - CS.HEADER_SIZE >= 0x8000_0000 then None
    else
      var p := CS.Decrypt(ks, USB_NONCE, f.payload);
      if p.None? || p.value.streamId != f.streamId || p.value.seqNo != f.seqNo then None
      else Some(Delivery(f.streamId, f.flags, f.seqNo, p.value.data))
  }

  /**
    A payload passes exactly when it is the encryption, for the USB side and under its header's stream and
    sequence number, of what comes out.
   */
  lemma {:induction false} PassesExactly(ks: CS.Keystream, f: Frame, data: seq<byte>)
    requires f.MediaFrame? && f.payload != []
    ensures DecryptMedia(ks, f) == Some(Delivery(f.streamId, f.flags, f.seqNo, data)) <==>
            |data| < 0x8000_0000 && f.payload == CS.Encrypt(ks, USB_NONCE, CS.Plain(f.streamId, f.seqNo, data))
    ensures DecryptMedia(ks, f).Some? ==>
              DecryptMedia(ks, f).value == Delivery(f.streamId, f.flags, f.seqNo, DecryptMedia(ks, f).value.payload)
  {
    hide CS.Encrypt;
    var p := CS.Plain(f.streamId, f.seqNo, data);
    CS.DecryptEncrypt(ks, USB_NONCE, p);
    if CS.Decrypt(ks, USB_NONCE, f.payload).Some? {
      CS.EncryptDecrypt(ks, USB_NONCE, f.payload);
    }
  }

  function DeliveryOf(ks: CS.Keystream, r: Read): seq<Delivery> {
    if r.Got? && r.frame.MediaFrame? && DecryptMedia(ks, r.frame).Some? then [DecryptMedia(ks, r.frame).value] else []
  }

  function Deliveries(ks: CS.Keystream, rs: seq<Read>): seq<Delivery> {
    if rs == [] then [] else DeliveryOf(ks, rs[0]) + Deliveries(ks, rs[1..])
  }

  // Video

  datatype Video = Video(assembly: VF.Assembly, sps: seq<byte>, pps: seq<byte>, gate: VQ.Gate)

  predicate HasFlag(flags: byte, flag: byte)
    requires flag > 0
  {
    flags as int / flag as int % 2 == 1
  }

  function NalType(payload: seq<byte>): byte {
    if payload == [] then 0 else payload[0] as int % 32
  }

  /** The packet for the decoder: a keyframe is preceded by the parameter sets seen last. */
  function DecoderPacket(v: Video, payload: seq<byte>, keyframe: bool): seq<byte> {
    var head := if keyframe then AnnexB.Append(AnnexB.Append([], v.sps), v.pps) else [];
    AnnexB.Append(head, payload)
  }

  function HandleVideo(v: Video, d: Delivery): (r: Video)
    requires VF.Sized(v.assembly)
    ensures VF.Sized(r.assembly)
  {
    var (assembly, out) := VF.Feed(v.assembly, d.payload, d.flags);
    var v1 := v.(assembly := assembly);
    match out
    case NotReady => v1
    case Ready(payload, flags) =>
      if HasFlag(flags, GP.FLAG_CONFIG) then
        if NalType(payload) == 7 then v1.(sps := payload)
        else if NalType(payload) == 8 then v1.(pps := payload)
        else v1
      else
        var keyframe := HasFlag(flags, GP.FLAG_KEYFRAME);
        v1.(gate := VQ.Trim(VQ.Enqueue(v1.gate, VQ.Packet(DecoderPacket(v1, payload, keyframe), keyframe, d.seqNo))))
  }

  function HandleAll(v: Video, ds: seq<Delivery>): (r: Video)
    requires VF.Sized(v.assembly)
    ensures VF.Sized(r.assembly)
    decreases |ds|
  {
    if ds == [] then v
    else HandleAll(if ds[0].streamId == GP.STREAM_VIDEO then HandleVideo(v, ds[0]) else v, ds[1..])
  }

  lemma {:induction false} HandleAllAppend(v: Video, xs: seq<Delivery>, ys: seq<Delivery>)
    requires VF.Sized(v.assembly)
    ensures HandleAll(v, xs + ys) == HandleAll(HandleAll(v, xs), ys)
    decreases |xs|
  {
    if xs == [] {
      assert xs + ys == ys;
    } else {
      assert (xs + ys)[1..] == xs[1..] + ys;
      HandleAllAppend(if xs[0].streamId == GP.STREAM_VIDEO then HandleVideo(v, xs[0]) else v, xs[1..], ys);
    }
  }

  class VideoPath {
    const reassembler: VF.Reassembler
    const shared: VQ.SharedQueue
    var sps: seq<byte>
    var pps: seq<byte>

    ghost function View(): Video
      reads this, reassembler, shared
    {
      Video(reassembler.View(), sps, pps, shared.View())
    }

    constructor ()
      ensures View() == Video(VF.IDLE, [], [], VQ.Gate([], true, 0))
      ensures fresh(reassembler) && fresh(shared)
    {
      reassembler := new VF.Reassembler();
      shared := new VQ.SharedQueue();
      sps, pps := [], [];
    }

    method Handle(d: Delivery)
      requires VF.Sized(View().assembly)
      modifies this, reassembler, shared
      ensures VF.Sized(View().assembly) && View() == HandleVideo(old(View()), d)
    {
      hide VF.Feed, VQ.Enqueue, VQ.Trim;
      var ready, payload, flags := reassembler.Reassemble(d.payload, d.flags);
      if !ready {
        return;
      }
      if HasFlag(flags, GP.FLAG_CONFIG) {
        if NalType(payload) == 7 {
          sps := payload;
        } else if NalType(payload) == 8 {
          pps := payload;
        }
        return;
      }
      var packet := [];
      var keyframe := HasFlag(flags, GP.FLAG_KEYFRAME);
      if keyframe {
        packet := AnnexB.AnnexbAppend(packet, sps);
        packet := AnnexB.AnnexbAppend(packet, pps);
      }
      packet := AnnexB.AnnexbAppend(packet, payload);
      shared.EnqueueVideoPacket(packet, keyframe, d.seqNo);
      shared.TrimVideoQueueForLatency();
    }
  }

  method DecryptUsbMediaPayload(ks: CS.Keystream, streamId: byte, seqNo: u32, payload: seq<byte>)
    returns (ok: bool, plaintext: seq<byte>)
    requires |payload| < TWO_TO_32
    ensures var d := DecryptMedia(ks, MediaFrame(streamId, 0, seqNo, payload));
            && (ok <==> d.Some?)
            && (ok ==> plaintext == d.value.payload)
  {
    if payload == [] {
      return true, [];
    }
    var buf := new byte[|payload|](_ => 0);
    var len, innerStream, innerSeq := CS.DecryptPacket(ks, buf, USB_NONCE, payload);
    if len < 0 {
      return false, [];
    }
    if innerStream != streamId || innerSeq != seqNo {
      return false, [];
    }
    return true, buf[..len];
  }

  /**
    The reading loop. What it hands on is what `ReadAll` finds in the logical stream, decrypted, however
    the bytes are split between prefetch and transport.
   */
  method NetworkReader(ks: CS.Keystream, reader: Reader, video: VideoPath) returns (delivered: seq<Delivery>)
    requires reader.Valid() && VF.Sized(video.View().assembly)
    modifies reader, reader.transport, video, video.reassembler, video.shared
    ensures delivered == Deliveries(ks, ReadAll(old(reader.Stream())))
    ensures VF.Sized(video.View().assembly) && video.View() == HandleAll(old(video.View()), delivered)
  {
    hide ReadAll, Deliveries, HandleAll, HandleVideo;
    delivered := [];
    HandleNone(video.View());
    while true
      invariant reader.Valid() && VF.Sized(video.View().assembly)
      invariant delivered + Deliveries(ks, ReadAll(reader.Stream())) == Deliveries(ks, ReadAll(old(reader.Stream())))
      invariant video.View() == HandleAll(old(video.View()), delivered)
      decreases |reader.Stream()|
    {
      var rc, some := ReadOne(ks, reader);
      if rc < 0 {
        return;
      }
      if rc == 1 {
        Associative(delivered, [some], Deliveries(ks, ReadAll(reader.Stream())));
        HandleAllAppend(old(video.View()), delivered, [some]);
        HandleOne(video.View(), some);
        delivered := delivered + [some];
        if some.streamId == GP.STREAM_VIDEO {
          video.Handle(some);
        }
      }
    }
  }

  lemma HandleNone(v: Video)
    requires VF.Sized(v.assembly)
    ensures HandleAll(v, []) == v
  {}

  lemma HandleOne(v: Video, d: Delivery)
    requires VF.Sized(v.assembly)
    ensures HandleAll(v, [d]) == if d.streamId == GP.STREAM_VIDEO then HandleVideo(v, d) else v
  {}

  /** One turn: -1 when the stream ends, 1 with a delivery, 0 when there is nothing to hand on. */
  method ReadOne(ks: CS.Keystream, reader: Reader) returns (rc: int, d: Delivery)
    requires reader.Valid()
    modifies reader, reader.transport
    ensures reader.Valid() && rc <= 1
    ensures rc < 0 ==> Deliveries(ks, ReadAll(old(reader.Stream()))) == []
    ensures rc >= 0 ==> |reader.Stream()| < |old(reader.Stream())|
    ensures rc >= 0 ==>
              Deliveries(ks, ReadAll(old(reader.Stream())))
              == (if rc == 1 then [d] else []) + Deliveries(ks, ReadAll(reader.Stream()))
  {
    d := Delivery(0, 0, 0, []);
    ghost var stream := reader.Stream();
    var media, init, skipped;
    rc, media, init, skipped := reader.ReadNextGatewayHeader();
    if rc <= 0 {
      return -1, d;
    }
    FirstHeader(stream, skipped);
    ghost var rest := reader.Stream();
    if rc == 2 {
      TurnOfInit(ks, stream, skipped);
      return 0, d;
    }
    TurnOfMedia(ks, stream, skipped, media);
    var payload;
    rc, payload := reader.ReadGatewayPayloadResync(media.payloadLen);
    if rc <= 0 {
      return rc, d;
    }
    var ok, plaintext := DecryptUsbMediaPayload(ks, media.streamId, media.seqNo, payload);
    if !ok {
      return 0, d;
    }
    return 1, Delivery(media.streamId, media.flags, media.seqNo, plaintext);
  }

  lemma TurnOfInit(ks: CS.Keystream, stream: seq<byte>, k: nat)
    requires FindHeader(stream, 0) == Some(k) && GP.ReadInit(stream[k..]).Some?
    ensures Deliveries(ks, ReadAll(stream)) == [] + Deliveries(ks, ReadAll(stream[k + GP.PACKET_HEADER_SIZE..]))
  {}

  lemma {:induction false} TurnOfMedia(ks: CS.Keystream, stream: seq<byte>, k: nat, info: GP.MediaInfo)
    requires FindHeader(stream, 0) == Some(k) && GP.ReadMediaHeader(stream[k..]) == Some(info)
    ensures var rest := stream[k + GP.PACKET_HEADER_SIZE..];
            var all := Deliveries(ks, ReadAll(stream));
            match ReadPayload(rest, info.payloadLen)
            case Ended => all == []
            case PushedBack => all == [] + Deliveries(ks, ReadAll(rest))
            case Payload(data, after) =>
              var d := DecryptMedia(ks, MediaFrame(info.streamId, info.flags, info.seqNo, data));
              all == (if d.Some? then [d.value] else []) + Deliveries(ks, ReadAll(after))
  {
    hide FindHeader, CS.Decrypt;
  }
}
