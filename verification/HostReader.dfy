/**
  The player's stream reader (gateway_client/gateway_client.cpp): headers are found by scanning for a
  magic, and a payload that starts with a magic is pushed back as the next header.

  Prefetch buffer and transport are two sources of one logical byte stream. The transport is the
  sequence of bytes that will still arrive before it ends.
 */
module HostReader {
  import opened Bytes
  import opened Frames
  import GP = GatewayProto

  predicate StartsMagic(b: seq<byte>) {
    |b| >= 4 && (ReadBe32(b) == GP.INIT_MAGIC || ReadBe32(b) == GP.PACKET_MAGIC)
  }

  /** A header starts at k: a magic, and sixteen bytes from there. */
  predicate HeaderAt(stream: seq<byte>, k: nat) {
    k + GP.PACKET_HEADER_SIZE <= |stream| && StartsMagic(stream[k..])
  }

  /** The first header at or after k. */
  function FindHeader(stream: seq<byte>, k: nat): (r: Option<nat>)
    ensures r.Some? ==> k <= r.value && HeaderAt(stream, r.value)
    ensures r.Some? ==> forall j | k <= j < r.value :: !HeaderAt(stream, j)
    ensures r.None? ==> forall j | k <= j :: !HeaderAt(stream, j)
    decreases |stream| - k
  {
    if k + GP.PACKET_HEADER_SIZE > |stream| then None
    else if HeaderAt(stream, k) then Some(k)
    else FindHeader(stream, k + 1)
  }

  lemma {:induction false} FirstHeader(stream: seq<byte>, k: nat)
    requires HeaderAt(stream, k) && forall j | 0 <= j < k :: !HeaderAt(stream, j)
    ensures FindHeader(stream, 0) == Some(k)
  {
    assert FindHeader(stream, 0).Some?;
  }

  /** One turn of the reading loop. */
  datatype Read =
    | Got(frame: Frame, skipped: nat)
    | Desync(info: GP.MediaInfo, skipped: nat)

  /** What a read of the payload finds, and the stream it leaves. */
  datatype PayloadResult =
    | Payload(data: seq<byte>, rest: seq<byte>)
    | PushedBack
    | Ended

  function ReadPayload(stream: seq<byte>, n: nat): (r: PayloadResult)
    ensures r.Payload? ==> |r.data| == n && r.data + r.rest == stream
  {
    if n == 0 then Payload([], stream)
    else
      var prefixLen := Min(n, GP.PACKET_HEADER_SIZE);
      if |stream| < prefixLen then Ended
      else if StartsMagic(stream[..prefixLen]) then PushedBack
      else if |stream| < n then Ended
      else Payload(stream[..n], stream[n..])
  }

  /** Everything the reading loop sees until the stream ends. */
  function ReadAll(stream: seq<byte>): seq<Read>
    decreases |stream|
  {
    var k := FindHeader(stream, 0);
    if k.None? then []
    else
      var rest := stream[k.value + GP.PACKET_HEADER_SIZE..];
      var media := GP.ReadMediaHeader(stream[k.value..]);
      if media.None? then
        [Got(InitFrame(GP.ReadInit(stream[k.value..]).value), k.value)] + ReadAll(rest)
      else
        var info := media.value;
        match ReadPayload(rest, info.payloadLen)
        case Ended => []
        case PushedBack => [Desync(info, k.value)] + ReadAll(rest)
        case Payload(data, after) =>
          [Got(MediaFrame(info.streamId, info.flags, info.seqNo, data), k.value)] + ReadAll(after)
  }

  // Reading back what was written

  /** A payload long enough to hold a magic does not start with one. */
  predicate Unambiguous(f: Frame) {
    f.MediaFrame? && |f.payload| >= 4 ==> !StartsMagic(f.payload)
  }

  /** How many of the frames lie wholly within the first n bytes. */
  function WholeFrames(frames: seq<Frame>, n: nat): (k: nat)
    ensures k <= |frames|
  {
    if frames == [] || n < |FrameBytes(frames[0])| then 0
    else 1 + WholeFrames(frames[1..], n - |FrameBytes(frames[0])|)
  }

  function Clean(frames: seq<Frame>): (r: seq<Read>)
    ensures |r| == |frames|
  {
    seq(|frames|, i requires 0 <= i < |frames| => Got(frames[i], 0))
  }

  lemma {:induction false} FrameHeader(f: Frame, tail: seq<byte>)
    ensures HeaderAt(FrameBytes(f) + tail, 0)
    ensures f.InitFrame? ==> GP.ReadMediaHeader(FrameBytes(f) + tail) == None
    ensures f.InitFrame? ==> GP.ReadInit(FrameBytes(f) + tail) == Some(f.info)
    ensures f.MediaFrame? ==> GP.ReadMediaHeader(FrameBytes(f) + tail) == Some(MediaInfoOf(f))
  {
    match f
    case InitFrame(info) => GP.InitRoundTrip(info, tail);
    case MediaFrame(_, _, _, payload) =>
      GP.MediaHeaderRoundTrip(MediaInfoOf(f), payload + tail);
      Associative(GP.MediaHeaderBytes(MediaInfoOf(f)), payload, tail);
  }

  /** One turn of the loop on a stream that starts with a media header. */
  lemma {:induction false} MediaTurn(stream: seq<byte>, info: GP.MediaInfo)
    requires HeaderAt(stream, 0) && GP.ReadMediaHeader(stream) == Some(info)
    ensures var rest := stream[GP.PACKET_HEADER_SIZE..];
            ReadAll(stream) == match ReadPayload(rest, info.payloadLen)
                               case Ended => []
                               case PushedBack => [Desync(info, 0)] + ReadAll(rest)
                               case Payload(data, after) =>
                                 [Got(MediaFrame(info.streamId, info.flags, info.seqNo, data), 0)] + ReadAll(after)
  {
    hide FindHeader, HeaderAt, ReadPayload, GP.ReadMediaHeader, GP.ReadInit;
    FirstHeader(stream, 0);
    assert stream[0..] == stream;
  }

  /** And on one that starts with an init. */
  lemma {:induction false} InitTurn(stream: seq<byte>, info: GP.InitInfo)
    requires HeaderAt(stream, 0) && GP.ReadMediaHeader(stream) == None && GP.ReadInit(stream) == Some(info)
    ensures ReadAll(stream) == [Got(InitFrame(info), 0)] + ReadAll(stream[GP.PACKET_HEADER_SIZE..])
  {
    hide FindHeader, HeaderAt, GP.ReadMediaHeader, GP.ReadInit;
    FirstHeader(stream, 0);
    assert stream[0..] == stream;
  }

  lemma AfterHeader(f: Frame, tail: seq<byte>)
    ensures (FrameBytes(f) + tail)[GP.PACKET_HEADER_SIZE..] == (if f.MediaFrame? then f.payload else []) + tail
  {}

  lemma {:induction false} ReadOneFrame(f: Frame, tail: seq<byte>)
    requires Unambiguous(f)
    ensures ReadAll(FrameBytes(f) + tail) == [Got(f, 0)] + ReadAll(tail)
  {
    hide ReadAll, FrameBytes, FindHeader, HeaderAt, ReadPayload, GP.ReadMediaHeader, GP.ReadInit, StartsMagic;
    var stream := FrameBytes(f) + tail;
    FrameHeader(f, tail);
    AfterHeader(f, tail);
    if f.InitFrame? {
      assert [] + tail == tail;
      InitTurn(stream, f.info);
    } else {
      PayloadThere(f.payload, tail);
      MediaTurn(stream, MediaInfoOf(f));
    }
  }

  /** Bytes in front of a frame in which no header starts are skipped, and counted. */
  lemma {:induction false} NoiseSkipped(noise: seq<byte>, f: Frame, tail: seq<byte>)
    requires Unambiguous(f) && forall k | 0 <= k < |noise| :: !HeaderAt(noise + FrameBytes(f) + tail, k)
    ensures ReadAll(noise + FrameBytes(f) + tail) == [Got(f, |noise|)] + ReadAll(tail)
  {
    hide FrameBytes, HeaderAt, ReadPayload, GP.ReadMediaHeader, GP.ReadInit, StartsMagic;
    var stream, clean := noise + FrameBytes(f) + tail, FrameBytes(f) + tail;
    assert stream[|noise|..] == clean;
    FrameHeader(f, tail);
    HeaderShifts(stream, |noise|, clean);
    FirstHeader(stream, |noise|);
    assert stream[|noise| + GP.PACKET_HEADER_SIZE..] == clean[GP.PACKET_HEADER_SIZE..];
    AfterHeader(f, tail);
    if f.MediaFrame? {
      PayloadThere(f.payload, tail);
    } else {
      assert [] + tail == tail;
    }
  }

  lemma HeaderShifts(stream: seq<byte>, k: nat, from: seq<byte>)
    requires k <= |stream| && stream[k..] == from && HeaderAt(from, 0)
    ensures HeaderAt(stream, k)
  {
    assert from[0..] == from;
  }

  lemma {:induction false} PayloadThere(payload: seq<byte>, tail: seq<byte>)
    requires |payload| >= 4 ==> !StartsMagic(payload)
    ensures ReadPayload(payload + tail, |payload|) == Payload(payload, tail)
  {
    var stream := payload + tail;
    var m := Min(|payload|, GP.PACKET_HEADER_SIZE);
    assert stream[..m] == payload[..m];
    assert stream[..|payload|] == payload && stream[|payload|..] == tail;
  }

  /** A frame cut short yields nothing: no header is found, or its payload does not arrive. */
  lemma {:induction false} ReadCutFrame(f: Frame, n: nat)
    requires Unambiguous(f) && n < |FrameBytes(f)|
    ensures ReadAll(FrameBytes(f)[..n]) == []
  {
    hide ReadAll, HeaderAt, GP.ReadMediaHeader, GP.ReadInit, StartsMagic;
    var stream := FrameBytes(f)[..n];
    if n < GP.PACKET_HEADER_SIZE {
      ReadTooShort(stream);
    } else {
      FrameHeader(f, []);
      assert FrameBytes(f) + [] == FrameBytes(f);
      SameMediaHeader(FrameBytes(f), stream);
      HeaderInPrefix(FrameBytes(f), n);
      CutPayload(f.payload, n - GP.PACKET_HEADER_SIZE);
      assert stream[GP.PACKET_HEADER_SIZE..] == f.payload[..n - GP.PACKET_HEADER_SIZE];
      MediaTurn(stream, MediaInfoOf(f));
    }
  }

  lemma ReadTooShort(stream: seq<byte>)
    requires |stream| < GP.PACKET_HEADER_SIZE
    ensures ReadAll(stream) == []
  {}

  lemma {:induction false} HeaderInPrefix(b: seq<byte>, n: nat)
    requires GP.PACKET_HEADER_SIZE <= n <= |b| && HeaderAt(b, 0)
    ensures HeaderAt(b[..n], 0)
  {
    assert b[0..] == b && b[..n][0..] == b[..n];
    assert forall i | 0 <= i < 4 :: b[..n][i] == b[i];
  }

  lemma {:induction false} CutPayload(payload: seq<byte>, n: nat)
    requires n < |payload| && (|payload| >= 4 ==> !StartsMagic(payload))
    ensures ReadPayload(payload[..n], |payload|) == Ended
  {
    var m := Min(|payload|, GP.PACKET_HEADER_SIZE);
    if n >= m {
      assert payload[..n][..m] == payload[..m];
      assert |payload| >= 4 ==> forall i | 0 <= i < 4 :: payload[..m][i] == payload[i];
    }
  }

  lemma {:induction false} SameMediaHeader(a: seq<byte>, b: seq<byte>)
    requires |b| >= 16 && b <= a
    ensures GP.ReadMediaHeader(a) == GP.ReadMediaHeader(b)
  {
    assert a[8..][0] == b[8..][0] && a[8..][1] == b[8..][1] && a[8..][2] == b[8..][2] && a[8..][3] == b[8..][3];
    assert a[12..][0] == b[12..][0] && a[12..][1] == b[12..][1] && a[12..][2] == b[12..][2] && a[12..][3] == b[12..][3];
  }

  lemma ReadNothing()
    ensures ReadAll([]) == []
  {}

  /** Reading any prefix of a written stream gives back exactly the frames that are whole, skipping nothing. */
  lemma {:induction false} ReadBackPrefix(frames: seq<Frame>, n: nat)
    requires forall f | f in frames :: Unambiguous(f)
    requires n <= |StreamBytes(frames)|
    ensures ReadAll(StreamBytes(frames)[..n]) == Clean(frames[..WholeFrames(frames, n)])
    decreases |frames|
  {
    hide FrameBytes, ReadAll;
    if frames == [] {
      ReadNothing();
    } else {
      var b, tail := FrameBytes(frames[0]), StreamBytes(frames[1..]);
      if n < |b| {
        assert StreamBytes(frames)[..n] == b[..n];
        ReadCutFrame(frames[0], n);
      } else {
        assert StreamBytes(frames)[..n] == b + tail[..n - |b|];
        ReadOneFrame(frames[0], tail[..n - |b|]);
        ReadBackPrefix(frames[1..], n - |b|);
        var k := WholeFrames(frames[1..], n - |b|);
        assert frames[..1 + k] == [frames[0]] + frames[1..][..k];
        assert Clean(frames[..1 + k]) == [Got(frames[0], 0)] + Clean(frames[1..][..k]);
      }
    }
  }

  lemma {:induction false} AllWhole(frames: seq<Frame>)
    ensures WholeFrames(frames, |StreamBytes(frames)|) == |frames|
  {
    if frames != [] {
      AllWhole(frames[1..]);
    }
  }

  /** Writing a list of frames and reading it back gives the same list, each found with nothing skipped. */
  lemma {:induction false} ReadBack(frames: seq<Frame>)
    requires forall f | f in frames :: Unambiguous(f)
    ensures ReadAll(StreamBytes(frames)) == Clean(frames)
  {
    var n := |StreamBytes(frames)|;
    AllWhole(frames);
    ReadBackPrefix(frames, n);
    assert StreamBytes(frames)[..n] == StreamBytes(frames) && frames[..|frames|] == frames;
  }

  /**
    A payload that was lost whole: the next header stands where it should start. The read pushes those
    bytes back, so the loop reports the desync and then the following frame, skipping nothing.
   */
  lemma {:induction false} LostPayloadResync(lost: Frame, next: Frame, tail: seq<byte>)
    requires lost.MediaFrame? && |lost.payload| >= 4 && Unambiguous(next)
    ensures ReadAll(GP.MediaHeaderBytes(MediaInfoOf(lost)) + (FrameBytes(next) + tail))
         == [Desync(MediaInfoOf(lost), 0), Got(next, 0)] + ReadAll(tail)
  {
    hide ReadAll, FrameBytes, HeaderAt, ReadPayload, GP.MediaHeaderBytes, GP.ReadMediaHeader, GP.ReadInit;
    var after := FrameBytes(next) + tail;
    FrameHeader(next, tail);
    PayloadIsHeader(after, |lost.payload|);
    ReadAfterHeader(lost, after);
    ReadOneFrame(next, tail);
  }

  /** After a media header the loop does what the payload read says. */
  lemma {:induction false} ReadAfterHeader(f: Frame, after: seq<byte>)
    requires f.MediaFrame? && ReadPayload(after, |f.payload|).PushedBack?
    ensures ReadAll(GP.MediaHeaderBytes(MediaInfoOf(f)) + after) == [Desync(MediaInfoOf(f), 0)] + ReadAll(after)
  {
    hide ReadAll, ReadPayload, GP.MediaHeaderBytes, GP.ReadMediaHeader, GP.ReadInit;
    var stream := GP.MediaHeaderBytes(MediaInfoOf(f)) + after;
    HeaderStands(MediaInfoOf(f), after);
    assert stream[GP.PACKET_HEADER_SIZE..] == after;
    MediaTurn(stream, MediaInfoOf(f));
  }

  lemma {:induction false} HeaderStands(info: GP.MediaInfo, after: seq<byte>)
    ensures var stream := GP.MediaHeaderBytes(info) + after;
            HeaderAt(stream, 0) && GP.ReadMediaHeader(stream) == Some(info)
  {
    var stream := GP.MediaHeaderBytes(info) + after;
    GP.MediaHeaderRoundTrip(info, after);
    assert stream[0..] == stream;
  }

  lemma {:induction false} PayloadIsHeader(stream: seq<byte>, n: nat)
    requires HeaderAt(stream, 0) && n >= 4
    ensures ReadPayload(stream, n) == PushedBack
  {
    var m := Min(n, 16);
    assert stream[0..] == stream;
    assert forall i | 0 <= i < 4 :: stream[..m][i] == stream[i];
  }

  /** The transport: what is still to come. Reading past the end drains it and reports a code of at most 0. */
  class Transport {
    var remaining: seq<byte>

    constructor (bytes: seq<byte>)
      ensures remaining == bytes
    {
      remaining := bytes;
    }

    method ReadExact(n: nat) returns (rc: int, data: seq<byte>)
      modifies this
      ensures n <= |old(remaining)| ==> rc == 1 && data == old(remaining)[..n] && remaining == old(remaining)[n..]
      ensures n > |old(remaining)| ==> rc == 0 && data == [] && remaining == []
    {
      if n <= |remaining| {
        data := remaining[..n];
        remaining := remaining[n..];
        return 1, data;
      }
      remaining := [];
      return 0, [];
    }
  }

  class Reader {
    const transport: Transport
    var prefetch: seq<byte>
    var prefetchOff: nat

    ghost predicate Valid()
      reads this
    {
      prefetchOff <= |prefetch|
    }

    /** The logical stream: the rest of the prefetch buffer, then the transport. */
    ghost function Stream(): seq<byte>
      requires Valid()
      reads this, transport
    {
      prefetch[prefetchOff..] + transport.remaining
    }

    constructor (leftover: seq<byte>, source: Transport)
      ensures Valid() && transport == source && Stream() == leftover + source.remaining
    {
      transport := source;
      prefetch := leftover;
      prefetchOff := 0;
    }

    method ReadExactPrefetched(n: nat) returns (rc: int, data: seq<byte>)
      requires Valid()
      modifies this, transport
      ensures Valid()
      ensures n <= |old(Stream())| ==> rc == 1 && data == old(Stream())[..n] && Stream() == old(Stream())[n..]
      ensures n > |old(Stream())| ==> rc <= 0 && Stream() == []
    {
      data := [];
      while |data| < n && prefetchOff < |prefetch|
        invariant Valid() && |data| <= n
        invariant transport.remaining == old(transport.remaining) && prefetch == old(prefetch)
        invariant old(prefetchOff) <= prefetchOff && data == prefetch[old(prefetchOff)..prefetchOff]
        decreases |prefetch| - prefetchOff
      {
        var avail := |prefetch| - prefetchOff;
        var take := n - |data|;
        if take > avail {
          take := avail;
        }
        data := data + prefetch[prefetchOff..prefetchOff + take];
        prefetchOff := prefetchOff + take;
      }
      assert data + Stream() == old(Stream());
      if prefetchOff >= |prefetch| {
        prefetch := [];
        prefetchOff := 0;
      }
      if |data| == n {
        return 1, data;
      }
      assert prefetch == [] && data + transport.remaining == old(Stream());
      var more;
      rc, more := transport.ReadExact(n - |data|);
      data := data + more;
    }

    method PrependPrefetch(bytes: seq<byte>)
      requires Valid()
      modifies this
      ensures Valid() && Stream() == bytes + old(Stream())
    {
      if |bytes| == 0 {
        return;
      }
      ghost var before := Stream();
      var merged := bytes;
      if prefetchOff < |prefetch| {
        merged := merged + prefetch[prefetchOff..];
      }
      prefetch := merged;
      prefetchOff := 0;
      assert Stream() == bytes + before;
    }

    /** 1 with a media header, 2 with an init, at most 0 when the stream ends first. */
    method ReadNextGatewayHeader() returns (rc: int, media: GP.MediaInfo, init: GP.InitInfo, skipped: nat)
      requires Valid()
      modifies this, transport
      ensures Valid() && rc <= 2
      ensures rc <= 0 <==> forall k: nat :: !HeaderAt(old(Stream()), k)
      ensures rc <= 0 ==> Stream() == []
      ensures rc > 0 ==>
                && HeaderAt(old(Stream()), skipped)
                && (forall k | 0 <= k < skipped :: !HeaderAt(old(Stream()), k))
                && Stream() == old(Stream())[skipped + GP.PACKET_HEADER_SIZE..]
      ensures rc == 1 ==> GP.ReadMediaHeader(old(Stream())[skipped..]) == Some(media)
      ensures rc == 2 ==> GP.ReadInit(old(Stream())[skipped..]) == Some(init)
    {
      media, init, skipped := GP.MediaInfo(0, 0, 0, 0), GP.InitInfo(0, 0, 0, 0, 0, 0), 0;
      ghost var s := Stream();
      var buf;
      rc, buf := ReadExactPrefetched(GP.PACKET_HEADER_SIZE);
      if rc <= 0 {
        return;
      }
      while true
        invariant Valid() && skipped + GP.PACKET_HEADER_SIZE <= |s|
        invariant buf == s[skipped..skipped + GP.PACKET_HEADER_SIZE]
        invariant Stream() == s[skipped + GP.PACKET_HEADER_SIZE..]
        invariant forall k | 0 <= k < skipped :: !HeaderAt(s, k)
        decreases |Stream()|
      {
        hide GP.ReadMediaHeader, GP.ReadInit, HeaderAt;
        assert s[skipped..][..GP.PACKET_HEADER_SIZE] == buf;
        WindowIsHeader(s, skipped, buf);
        var m := GP.ReadMediaHeader(buf);
        if m.Some? {
          return 1, m.value, init, skipped;
        }
        var i := GP.ReadInit(buf);
        if i.Some? {
          return 2, media, i.value, skipped;
        }
        var next;
        rc, next := ReadExactPrefetched(1);
        if rc <= 0 {
          return;
        }
        buf := buf[1..] + next;
        skipped := skipped + 1;
      }
    }

    /** 1 with the payload, 0 when its first bytes were a header and were pushed back, -1 when the stream ends. */
    method ReadGatewayPayloadResync(n: nat) returns (rc: int, payload: seq<byte>)
      requires Valid()
      modifies this, transport
      ensures Valid()
      ensures match ReadPayload(old(Stream()), n)
              case Payload(data, rest) => rc == 1 && payload == data && Stream() == rest
              case PushedBack => rc == 0 && Stream() == old(Stream())
              case Ended => rc == -1
    {
      payload := [];
      if n == 0 {
        return 1, [];
      }
      ghost var s := Stream();
      var prefixLen := n;
      if prefixLen > GP.PACKET_HEADER_SIZE {
        prefixLen := GP.PACKET_HEADER_SIZE;
      }
      var prefix;
      rc, prefix := ReadExactPrefetched(prefixLen);
      if rc <= 0 {
        return -1, [];
      }
      if StartsMagic(prefix) {
        PrependPrefetch(prefix);
        SplitAt(s, prefixLen);
        return 0, [];
      }
      payload := prefix;
      if n > prefixLen {
        var more;
        rc, more := ReadExactPrefetched(n - prefixLen);
        if rc <= 0 {
          return -1, [];
        }
        payload := payload + more;
        assert payload == s[..n] && Stream() == s[n..];
      }
      return 1, payload;
    }
  }

  /** Sixteen bytes are a header exactly when one of the readers takes them, and each reads the same there. */
  lemma {:induction false} WindowIsHeader(s: seq<byte>, k: nat, buf: seq<byte>)
    requires k + GP.PACKET_HEADER_SIZE <= |s| && buf == s[k..k + GP.PACKET_HEADER_SIZE]
    ensures GP.ReadMediaHeader(s[k..]) == GP.ReadMediaHeader(buf) && GP.ReadInit(s[k..]) == GP.ReadInit(buf)
    ensures HeaderAt(s, k) <==> GP.ReadMediaHeader(buf).Some? || GP.ReadInit(buf).Some?
  {
    assert s[k..][..GP.PACKET_HEADER_SIZE] == buf;
    SameMediaHeader(s[k..], buf);
    SameInit(s[k..], buf);
  }

  lemma {:induction false} SameInit(a: seq<byte>, b: seq<byte>)
    requires |b| >= 16 && b <= a
    ensures GP.ReadInit(a) == GP.ReadInit(b)
  {
    assert a[8..][0] == b[8..][0] && a[8..][1] == b[8..][1] && a[8..][2] == b[8..][2] && a[8..][3] == b[8..][3];
    assert a[12..][0] == b[12..][0] && a[12..][1] == b[12..][1];
  }
}
