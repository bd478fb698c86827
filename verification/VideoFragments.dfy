/**
  Splitting a video payload into fragments (wsh264/app/wsh264.cpp) and putting fragments back together
  in the player (gateway_client/gateway_client.cpp).
 */
module VideoFragments {
  import opened Bytes
  import opened Frames

  const FRAGMENT_DATA_SIZE: nat := 16 * 1024

  // The sender's side

  function FragmentPacket(flags: byte, index: u16, count: u16, frameId: u32, data: seq<byte>): (p: seq<byte>)
    ensures |p| == FRAGMENT_HEADER_SIZE + |data|
  {
    VFG1 + [flags, 0] + Le16(index) + Le16(count) + Le16(0) + Le32(frameId) + data
  }

  /** The payload cut every 16 KiB. */
  function Split(payload: seq<byte>): (parts: seq<seq<byte>>)
    ensures forall p | p in parts :: p != []
    ensures |parts| == (|payload| + FRAGMENT_DATA_SIZE - 1) / FRAGMENT_DATA_SIZE
  {
    if payload == [] then []
    else
      var n := Min(|payload|, FRAGMENT_DATA_SIZE);
      [payload[..n]] + Split(payload[n..])
  }

  lemma {:induction false} SplitConcat(payload: seq<byte>)
    ensures Concat(Split(payload)) == payload
  {
    if payload != [] {
      var n := Min(|payload|, FRAGMENT_DATA_SIZE);
      SplitConcat(payload[n..]);
      assert Split(payload)[1..] == Split(payload[n..]);
    }
  }

  /** The fragment count as the header carries it, truncated to 16 bits. */
  function FragmentCount(payload: seq<byte>): u16 {
    |Split(payload)| % 0x1_0000
  }

  function Packets(flags: byte, frameId: u32, parts: seq<seq<byte>>): (packets: seq<seq<byte>>)
    requires |parts| < 0x1_0000
    ensures |packets| == |parts|
  {
    seq(|parts|, i requires 0 <= i < |parts| => FragmentPacket(flags, i, |parts|, frameId, parts[i]))
  }

  /** What `send_video_media` hands to the encrypted sender, in order. */
  function MediaPackets(payload: seq<byte>, frameId: u32): seq<seq<byte>> {
    if |payload| <= FRAGMENT_DATA_SIZE then [payload]
    else Packets(NalFlags(payload), frameId, Split(payload)[..FragmentCount(payload)])
  }

  class VideoSender {
    var videoFrameId: u32
    var sent: seq<seq<byte>>   // payloads handed to send_encrypted_media, the failing one included

    constructor ()
      ensures videoFrameId == 0 && sent == []
    {
      videoFrameId, sent := 0, [];
    }

    /** `sends` is how many of the encrypted sends succeed before one fails. */
    method SendVideoMedia(payload: seq<byte>, sends: nat) returns (rc: int)
      modifies this
      ensures payload == [] ==> rc == -1 && sent == old(sent) && videoFrameId == old(videoFrameId)
      ensures payload != [] ==>
                var packets := MediaPackets(payload, old(videoFrameId));
                && sent == old(sent) + packets[..Min(sends + 1, |packets|)]
                && (rc == 0 <==> |packets| <= sends)
      ensures payload != [] ==>
                videoFrameId == if |payload| <= FRAGMENT_DATA_SIZE then old(videoFrameId)
                                else (old(videoFrameId) as int + 1) % TWO_TO_32
    {
      hide FragmentPacket, NalFlags, Split;
      if |payload| == 0 {
        return -1;
      }
      if |payload| <= FRAGMENT_DATA_SIZE {
        sent := sent + [payload];
        return if sends > 0 then 0 else -1;
      }
      var flags := NalFlags(payload);
      var count: u16 := (|payload| + FRAGMENT_DATA_SIZE - 1) / FRAGMENT_DATA_SIZE % 0x1_0000;
      var frameId := videoFrameId;
      videoFrameId := (videoFrameId as int + 1) % TWO_TO_32;
      ghost var parts := Split(payload)[..count];
      ghost var packets := Packets(flags, frameId, parts);
      var offset := 0;
      var index := 0;
      while index < count
        invariant 0 <= index <= count && index <= sends && 0 <= offset <= |payload|
        invariant Split(payload[offset..]) == Split(payload)[index..]
        invariant sent == old(sent) + packets[..index]
        invariant videoFrameId == (frameId as int + 1) % TWO_TO_32
      {
        var len := |payload| - offset;
        if len > FRAGMENT_DATA_SIZE {
          len := FRAGMENT_DATA_SIZE;
        }
        NextPart(payload, offset, index);
        sent := sent + [FragmentPacket(flags, index, count, frameId, payload[offset..offset + len])];
        assert packets[..index + 1] == packets[..index] + [packets[index]];
        if index >= sends {
          return -1;
        }
        offset := offset + len;
        index := index + 1;
      }
      return 0;
    }
  }

  lemma {:induction false} NextPart(payload: seq<byte>, offset: nat, index: nat)
    requires offset <= |payload| && index < |Split(payload)|
    requires Split(payload[offset..]) == Split(payload)[index..]
    ensures var n := Min(|payload| - offset, FRAGMENT_DATA_SIZE);
            && payload[offset..offset + n] == Split(payload)[index]
            && Split(payload[offset + n..]) == Split(payload)[index + 1..]
  {
    var n := Min(|payload| - offset, FRAGMENT_DATA_SIZE);
    assert Split(payload[offset..])[0] == payload[offset..][..n];
    assert payload[offset..][..n] == payload[offset..offset + n];
    assert payload[offset..][n..] == payload[offset + n..];
    assert Split(payload[offset..])[1..] == Split(payload)[index + 1..];
  }

  // The receiver's side

  datatype Assembly = Assembly(active: bool, frameId: u32, flags: byte, count: u16,
                               received: nat, totalSize: nat, parts: seq<seq<byte>>)

  datatype Output = NotReady | Ready(payload: seq<byte>, flags: byte)

  const IDLE: Assembly := Assembly(false, 0, 0, 0, 0, 0, [])

  datatype Fragment = Fragment(flags: byte, index: u16, count: u16, frameId: u32, data: seq<byte>)

  function ParseFragment(payload: seq<byte>): Fragment
    requires IsFragment(payload)
  {
    Fragment(payload[4], ReadLe16(payload[6..]), ReadLe16(payload[8..]), ReadLe32(payload[12..]), payload[16..])
  }

  lemma {:induction false} ParseFragmentPacket(flags: byte, index: u16, count: u16, frameId: u32, data: seq<byte>)
    ensures var p := FragmentPacket(flags, index, count, frameId, data);
            IsFragment(p) && ParseFragment(p) == Fragment(flags, index, count, frameId, data)
    ensures var p := FragmentPacket(flags, index, count, frameId, data);
            && p[..4] == [0x56, 0x46, 0x47, 0x31] // "VFG1"
            && p[4] == flags && p[5] == 0 && ReadLe16(p[6..]) == index && ReadLe16(p[8..]) == count
            && p[10..12] == [0, 0] && ReadLe32(p[12..]) == frameId && p[16..] == data
  {
    var p := FragmentPacket(flags, index, count, frameId, data);
    assert p[..4] == VFG1;
    assert p[6..][0] == index % 0x100 && p[6..][1] == index / 0x100;
    assert p[8..][0] == count % 0x100 && p[8..][1] == count / 0x100;
    Le32ThenRead(frameId, data);
    assert p[12..] == Le32(frameId) + data;
    assert p[16..] == data;
  }

  /** An assembly for this frame id and count is under way. */
  predicate Continues(s: Assembly, f: Fragment) {
    s.active && s.frameId == f.frameId && s.count == f.count
  }

  function Begin(f: Fragment): Assembly
    requires f.count > 0
  {
    Assembly(true, f.frameId, f.flags, f.count, 0, 0, seq<seq<byte>>(f.count, _ => []))
  }

  function Store(s: Assembly, f: Fragment): Assembly
    requires f.index < |s.parts|
  {
    if s.parts[f.index] == []
    then s.(parts := s.parts[f.index := f.data], received := s.received + 1, totalSize := s.totalSize + |f.data|)
    else s
  }

  predicate Sized(s: Assembly) {
    |s.parts| == s.count
  }

  function Feed(s: Assembly, payload: seq<byte>, flags: byte): (r: (Assembly, Output))
    requires Sized(s)
    ensures Sized(r.0)
  {
    if !IsFragment(payload) then (s, Ready(payload, flags))
    else
      var f := ParseFragment(payload);
      if f.count == 0 || f.index >= f.count then (IDLE, NotReady)
      else
        var s1 := Store(if Continues(s, f) then s else Begin(f), f);
        if s1.received != s1.count then (s1, NotReady)
        else if [] in s1.parts then (IDLE, NotReady)
        else (IDLE, Ready(Concat(s1.parts), s1.flags))
  }

  class Reassembler {
    var active: bool
    var frameId: u32
    var fragFlags: byte
    var count: u16
    var received: nat
    var totalSize: nat
    var parts: seq<seq<byte>>

    ghost function View(): Assembly
      reads this
    {
      Assembly(active, frameId, fragFlags, count, received, totalSize, parts)
    }

    constructor ()
      ensures View() == IDLE
    {
      active, frameId, fragFlags, count, received, totalSize, parts := false, 0, 0, 0, 0, 0, [];
    }

    method Reset()
      modifies this
      ensures View() == IDLE
    {
      active, frameId, fragFlags, count, received, totalSize, parts := false, 0, 0, 0, 0, 0, [];
    }

    /** Appends the parts in order, stopping at one that is empty. */
    method AssembleParts() returns (complete: bool, assembled: seq<byte>)
      requires |parts| == count
      ensures complete <==> [] !in parts
      ensures complete ==> assembled == Concat(parts)
    {
      assembled := [];
      var i := 0;
      while i < count
        invariant 0 <= i <= count
        invariant assembled == Concat(parts[..i]) && [] !in parts[..i]
      {
        if parts[i] == [] {
          return false, assembled;
        }
        assert parts[..i + 1] == parts[..i] + [parts[i]];
        ConcatSnoc(parts[..i], parts[i]);
        assembled := assembled + parts[i];
        i := i + 1;
      }
      assert parts[..count] == parts;
      return true, assembled;
    }

    /** Start over for another frame, and store the part unless data of its index is there already. */
    method StorePart(f: Fragment)
      requires Sized(View()) && f.index < f.count
      modifies this
      ensures Sized(View()) && View() == Store(if Continues(old(View()), f) then old(View()) else Begin(f), f)
    {
      if !active || frameId != f.frameId || count != f.count {
        Reset();
        active := true;
        frameId := f.frameId;
        fragFlags := f.flags;
        count := f.count;
        parts := seq<seq<byte>>(f.count, _ => []);
      }
      if parts[f.index] == [] {
        parts := parts[f.index := f.data];
        received := received + 1;
        totalSize := totalSize + |f.data|;
      }
    }

    /** Returns whether a whole payload is available, and the payload and flags to use. */
    method Reassemble(payload: seq<byte>, flags: byte) returns (ready: bool, outPayload: seq<byte>, outFlags: byte)
      requires Sized(View())
      modifies this
      ensures Sized(View()) && View() == Feed(old(View()), payload, flags).0
      ensures match Feed(old(View()), payload, flags).1
              case NotReady => !ready
              case Ready(p, fl) => ready && outPayload == p && outFlags == fl
    {
      hide Store, Begin, Continues, Concat;
      outPayload, outFlags := payload, flags;
      if |payload| < 16 || payload[..4] != VFG1 {
        return true, payload, flags;
      }
      outFlags := payload[4];
      var index := ReadLe16(payload[6..]);
      var fragCount := ReadLe16(payload[8..]);
      var id := ReadLe32(payload[12..]);
      if fragCount == 0 || index >= fragCount {
        Reset();
        return false, outPayload, outFlags;
      }
      StorePart(Fragment(outFlags, index, fragCount, id, payload[16..]));
      if received != count {
        return false, outPayload, outFlags;
      }
      var complete, assembled := AssembleParts();
      if !complete {
        Reset();
        return false, outPayload, outFlags;
      }
      outFlags := fragFlags;
      outPayload := assembled;
      Reset();
      return true, outPayload, outFlags;
    }
  }
}
