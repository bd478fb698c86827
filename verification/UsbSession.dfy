/** The firmware's USB session on its ring array and request buffer: each method carries out one step of `UsbProtocol`. */
module UsbSession {
  import opened Bytes
  import opened UsbProtocol
  import Frames
  import TxRing
  import GP = GatewayProto
  import CS = CryptoStream

  class Session {
    const ks: CS.Keystream
    const tx: TxRing.Ring
    const inBuf: array<byte>      // gateway_usb_in_buf
    var requestLength: nat        // in_req->length
    var started: bool
    var bound: bool
    var configured: bool
    var hostReady: bool
    var initSent: bool
    var resetting: bool
    var inBusy: bool
    var inFlight: nat
    ghost var pending: Request
    ghost var log: seq<Packet>
    ghost var offered: seq<CS.Plain>
    ghost var acked: seq<byte>
    ghost var wire: seq<Transfer>

    /** The ring is consistent, and the buffer of an outstanding request still holds what was queued. */
    ghost predicate Valid()
      reads this, tx, tx.ring, inBuf
    {
      && tx.Valid() && inBuf.Length == IN_CHUNK_SIZE && tx.ring != inBuf
      && (inBusy <==> pending != NoRequest)
      && (pending != NoRequest ==> requestLength <= IN_CHUNK_SIZE && inBuf[..requestLength] == pending.bytes)
    }

    ghost function View(): Usb
      requires Valid()
      reads this, tx, tx.ring, inBuf
    {
      Usb(started, bound, configured, hostReady, initSent, resetting, inBusy, inFlight, tx.queue,
          pending, log, offered, acked, wire)
    }

    constructor (keystream: CS.Keystream)
      ensures Valid() && fresh(tx) && fresh(tx.ring) && fresh(inBuf)
      ensures ks == keystream && View() == POWER_ON
    {
      ks := keystream;
      tx := new TxRing.Ring();
      inBuf := new byte[IN_CHUNK_SIZE](_ => 0);
      requestLength := 0;
      started, bound, configured, hostReady := false, false, false, false;
      initSent, resetting, inBusy, inFlight := false, false, false, 0;
      pending, log, offered, acked, wire := NoRequest, [], [], [], [];
    }

    method TxReset()
      requires Valid()
      modifies this`initSent, this`log, this`offered, this`acked, this`wire, tx
      ensures Valid() && View() == UsbProtocol.TxReset(old(View()))
    {
      hide TxRing.Contents, TxRing.Ring.Valid;
      tx.Reset();
      initSent := false;
      log, offered, acked, wire := [], [], [], [];
    }

    // Packets

    method EnqueueInitPacket() returns (rc: int)
      requires Valid()
      modifies this`initSent, this`log, tx, tx.ring
      ensures Valid() && (rc == 0 <==> EnqueueInit(old(View())).0)
      ensures View() == EnqueueInit(old(View())).1
    {
      if initSent {
        return 0;
      }
      var initBuf := new byte[GP.INIT_SIZE](_ => 0);
      GP.WriteInit(initBuf, GP.DefaultInit());
      assert initBuf[..] == GP.InitBytes(GP.DefaultInit());
      rc := tx.EnqueuePacket(initBuf[..], []);
      assert initBuf[..] + [] == initBuf[..];
      if rc != 0 {
        return -1;
      }
      initSent := true;
      log := log + [Init];
    }

    /** The re-encryption for the USB side; fails on a length that is not a positive `int`. */
    method EncryptForUsb(p: CS.Plain) returns (rc: int, encrypted: seq<byte>)
      requires |p.data| + CS.HEADER_SIZE < TWO_TO_32
      ensures rc == 0 <==> p.data == [] || Sendable(p)
      ensures rc == 0 ==> encrypted == Frames.RelayPayload(ks, p)
    {
      if |p.data| == 0 {
        return 0, [];
      }
      var packet := new byte[CS.PacketSize(|p.data|)](_ => 0);
      var encryptedLen := CS.EncryptPacket(ks, packet, p, Frames.USB_NONCE);
      if encryptedLen < 0 {
        return -1, [];
      }
      assert packet[..] == CS.Encrypt(ks, Frames.USB_NONCE, p);
      return 0, packet[..];
    }

    method EnqueueMediaPacket(p: CS.Plain, haveMemory: bool) returns (rc: int)
      requires Valid() && |p.data| + CS.HEADER_SIZE < TWO_TO_32
      modifies this`log, tx, tx.ring
      ensures Valid() && (rc == 0 <==> EnqueueMedia(ks, old(View()), p, haveMemory).0)
      ensures View() == EnqueueMedia(ks, old(View()), p, haveMemory).1
    {
      hide TxRing.Contents, TxRing.Ring.Valid;
      if |p.data| > 0 && !haveMemory {
        return -1;
      }
      var encrypted;
      rc, encrypted := EncryptForUsb(p);
      if rc != 0 {
        return -1;
      }
      var flags := if p.streamId == GP.STREAM_VIDEO then Frames.VideoFlags(p.data) else 0;
      var header := new byte[GP.PACKET_HEADER_SIZE](_ => 0);
      GP.WriteMediaHeader(header, GP.MediaInfo(p.streamId, flags, p.seqNo, |encrypted|));
      rc := EnqueueFrame(header[..], encrypted, p);
    }

    method EnqueueFrame(header: seq<byte>, payload: seq<byte>, ghost p: CS.Plain) returns (rc: int)
      requires Valid() && Sendable(p)
      requires header + payload == Frames.FrameBytes(Frames.RelayFrame(ks, p))
      modifies this`log, tx, tx.ring
      ensures Valid() && (rc == 0 <==> EnqueueMedia(ks, old(View()), p, true).0)
      ensures View() == EnqueueMedia(ks, old(View()), p, true).1
    {
      hide Frames.FrameBytes;
      rc := tx.EnqueuePacket(header, payload);
      if rc == 0 {
        log := log + [Media(p)];
      }
    }

    // The IN endpoint

    method KickTx(queued: bool) returns (rc: int)
      requires Valid()
      modifies this`requestLength, this`inBusy, this`inFlight, this`pending, inBuf
      ensures Valid() && View() == Kick(old(View()), queued)
    {
      hide TxRing.Contents, TxRing.Ring.Valid;
      if !bound || !configured || inBusy {
        return 0;
      }
      var chunkLen := tx.PeekChunk(inBuf, IN_CHUNK_SIZE);
      if chunkLen == 0 {
        return 0;
      }
      requestLength := chunkLen;
      inBusy := true;
      inFlight := chunkLen;
      if !queued {
        inBusy := false;
        inFlight := 0;
        return -1;
      }
      pending := StreamRequest(inBuf[..requestLength]);
      return 0;
    }

    method WritePong(seqNo: u32)
      requires inBuf.Length == IN_CHUNK_SIZE
      modifies inBuf
      ensures inBuf[..PING_PACKET_SIZE] == PongBytes(seqNo)
    {
      forall i | 0 <= i < IN_CHUNK_SIZE {
        inBuf[i] := 0;
      }
      CopyInto(inBuf, 0, PONG);
      assert inBuf[..4] == PONG;
      CopyInto(inBuf, 4, Le32(seqNo));
      assert inBuf[..8] == PONG + Le32(seqNo);
      label seqNo:
      CopyInto(inBuf, 8, Le32(|PONG_TEXT|));
      assert inBuf[..12] == old@seqNo(inBuf[..8]) + Le32(16);
      label length:
      CopyInto(inBuf, 12, PONG_TEXT);
      assert inBuf[..28] == old@length(inBuf[..12]) + PONG_TEXT;
      assert inBuf[28..64] == seq<byte>(36, _ => 0);
      assert inBuf[..64] == inBuf[..28] + inBuf[28..64];
    }

    method SendPong(seqNo: u32, queued: bool) returns (rc: int)
      requires Valid()
      modifies this`requestLength, this`inBusy, this`inFlight, this`pending, inBuf
      ensures Valid() && View() == UsbProtocol.SendPong(old(View()), seqNo, queued)
    {
      if !bound || inBusy {
        return -1;
      }
      WritePong(seqNo);
      requestLength := PING_PACKET_SIZE;
      inBusy := true;
      inFlight := 0;
      if !queued {
        inBusy := false;
        return -1;
      }
      pending := PongRequest(inBuf[..requestLength]);
      return 0;
    }

    /**
      `dequeued` is whether `usb_ep_dequeue` succeeds; it then runs the failing completion before it
      returns. Either way the endpoint no longer holds the request.
     */
    method ResetStreamSession(dequeued: bool)
      requires Valid()
      modifies this, tx, inBuf
      ensures Valid() && View() == ResetSession(old(View()))
      decreases inBusy, 1
    {
      hide TxRing.Contents, TxRing.Ring.Valid, Kick, Consume, TransferOf, UsbProtocol.TxReset;
      if !bound {
        return;
      }
      if inBusy {
        resetting := true;
        if dequeued {
          InComplete(false, 0, false);
        } else {
          resetting := false;
          pending := NoRequest;
          inBusy := false;
        }
      } else {
        resetting := false;
      }
      inBusy := false;
      inFlight := 0;
      TxReset();
    }

    method InComplete(ok: bool, actual: nat, queued: bool)
      requires Valid() && pending != NoRequest
      modifies this, tx, inBuf
      ensures Valid() && View() == UsbProtocol.InComplete(old(View()), ok, actual, queued)
      decreases inBusy, 0
    {
      hide Kick, ResetSession, TxRing.Contents, TxRing.Ring.Valid, TransferOf;
      ghost var request := pending;
      inBusy := false;
      pending := NoRequest;
      if !ok {
        inFlight := 0;
        if resetting {
          resetting := false;
          return;
        }
        ResetStreamSession(false);
        return;
      }
      AfterTransfer(request, actual, queued);
    }

    /** A transfer has reached the host: what it carried leaves the ring, and the next chunk follows. */
    method AfterTransfer(ghost request: Request, actual: nat, queued: bool)
      requires Valid() && pending == NoRequest && request != NoRequest
      modifies this, tx, inBuf
      ensures Valid()
      ensures var seen := old(View()).(wire := old(wire) + [TransferOf(request, actual)]);
              var n := if 0 < actual < old(inFlight) then actual else old(inFlight);
              View() == Kick(if old(inFlight) > 0 then Consume(seen, n).(inFlight := 0) else seen, queued)
    {
      hide Kick, TxRing.Contents, TxRing.Ring.Valid, TransferOf;
      wire := wire + [TransferOf(request, actual)];
      ConsumeInFlight(actual);
      var _ := KickTx(queued);
    }

    method ConsumeInFlight(actual: nat)
      requires Valid()
      modifies this`inFlight, this`acked, tx
      ensures Valid()
      ensures old(inFlight) == 0 ==> View() == old(View())
      ensures old(inFlight) > 0 ==>
                View() == Consume(old(View()), if 0 < actual < old(inFlight) then actual else old(inFlight)).(inFlight := 0)
    {
      if inFlight > 0 {
        var n := inFlight;
        if actual > 0 && actual < n {
          n := actual;
        }
        acked := acked + tx.queue[..Min(n, |tx.queue|)];
        tx.ConsumeChunk(n);
        inFlight := 0;
      }
    }

    // Task and callback entry points

    method RetryInitIfNeeded(queued: bool)
      requires Valid()
      modifies this, tx, tx.ring, inBuf
      ensures Valid() && View() == RetryInit(old(View()), queued)
    {
      if !started || !configured {
        return;
      }
      if !hostReady {
        return;
      }
      var rc := EnqueueInitPacket();
      if rc == 0 {
        var _ := KickTx(queued);
      }
    }

    method OutComplete(raw: seq<byte>, dequeued: bool, pongQueued: bool, queued: bool)
      requires Valid()
      modifies this, tx, tx.ring, inBuf
      ensures Valid() && View() == OutPacket(old(View()), raw, pongQueued, queued)
    {
      hide TxRing.Contents, TxRing.Ring.Valid, ResetSession, UsbProtocol.SendPong, EnqueueInit, Kick;
      hostReady := true;
      if |raw| < 12 {
        return;
      }
      if raw[..4] == CFG1 {
        return;
      }
      if raw[..4] == PING {
        ResetStreamSession(dequeued);
      }
      var _ := SendPong(ReadLe32(raw[4..]), pongQueued);
      var rc := EnqueueInitPacket();
      if rc == 0 {
        var _ := KickTx(queued);
      }
    }

    method UpstreamBinaryFrame(nonce: Option<CS.Nonce>, payload: Frames.Payload, haveMemory: bool, queued: bool)
      requires Valid()
      modifies this, tx, tx.ring, inBuf
      ensures Valid() && View() == Upstream(ks, old(View()), nonce, payload, haveMemory, queued)
    {
      hide TxRing.Contents, Relay;
      if nonce.None? {
        return;
      }
      var plaintext := new byte[|payload|](_ => 0);
      var plainLen, streamId, seqNo := CS.DecryptPacket(ks, plaintext, nonce.value, payload);
      if plainLen > 0 {
        var p := CS.Plain(streamId, seqNo, plaintext[..plainLen]);
        assert p.data == CS.Decrypt(ks, nonce.value, payload).value.data;
        offered := offered + [p];
        RelayPacket(p, haveMemory, queued);
      }
    }

    method RelayPacket(p: CS.Plain, haveMemory: bool, queued: bool)
      requires Valid() && |p.data| + CS.HEADER_SIZE < TWO_TO_32
      modifies this, tx, tx.ring, inBuf
      ensures Valid() && View() == Relay(ks, old(View()), p, haveMemory, queued)
    {
      hide TxRing.Contents, EnqueueInit, EnqueueMedia, Kick;
      if started && configured && hostReady {
        var rc := EnqueueInitPacket();
        if rc == 0 {
          rc := EnqueueMediaPacket(p, haveMemory);
          if rc == 0 {
            var _ := KickTx(queued);
          }
        }
      }
    }

    /** `gateway_usb_function_disable`, `gateway_usb_disconnect` and `gateway_usb_suspend`. */
    method Disable()
      requires Valid()
      modifies this, tx
      ensures Valid() && View() == Teardown(old(View()))
    {
      hide TxRing.Contents, TxRing.Ring.Valid;
      configured := false;
      inBusy := false;
      pending := NoRequest;
      TxReset();
    }

    method Configure()
      requires Valid()
      modifies this, tx
      ensures Valid()
      ensures View() == UsbProtocol.TxReset(
                          old(View()).(bound := true, configured := true, inBusy := false,
                                       hostReady := false, pending := NoRequest))
    {
      hide TxRing.Contents, TxRing.Ring.Valid;
      bound := true;
      configured := true;
      inBusy := false;
      pending := NoRequest;
      hostReady := false;
      TxReset();
    }

    method SetAltSetting(result: AltResult)
      requires Valid()
      modifies this, tx
      ensures Valid() && View() == SetAlt(old(View()), result)
    {
      hide TxRing.Contents, UsbProtocol.TxReset;
      if configured {
        Disable();
      }
      if result.Enabled? {
        Configure();
      } else if result.RequestFailed? {
        bound := bound || result.inAllocated;
        Disable();
      }
    }
  }
}
