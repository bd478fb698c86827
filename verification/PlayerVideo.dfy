/**
  What the player's video path makes of the deliveries: the parameter sets it holds, the packets it builds for
  the decoder, and that the gate has seen exactly these.
 */
module PlayerVideo {
  import opened Bytes
  import opened Frames
  import opened Player
  import GP = GatewayProto
  import VF = VideoFragments
  import VQ = VideoQueue
  import AnnexB

  /** What reassembly hands over, under the number of the delivery that completed it. */
  datatype Unit = Unit(nal: seq<byte>, flags: byte, seqNo: u32)

  /** The assembly after the deliveries, and the units handed over. */
  function Reassembled(a: VF.Assembly, ds: seq<Delivery>): (r: (VF.Assembly, seq<Unit>))
    requires VF.Sized(a)
    ensures VF.Sized(r.0)
    decreases |ds|
  {
    if ds == [] then (a, [])
    else
      var (a1, us) := Reassembled(a, ds[..|ds| - 1]);
      var d := ds[|ds| - 1];
      if d.streamId != GP.STREAM_VIDEO then (a1, us)
      else
        match VF.Feed(a1, d.payload, d.flags)
        case (a2, NotReady) => (a2, us)
        case (a2, Ready(nal, flags)) => (a2, us + [Unit(nal, flags, d.seqNo)])
  }

  // Flags and types

  predicate IsKeyframe(u: Unit) {
    Bit(u.flags, 0) == 1
  }

  predicate IsParameters(u: Unit) {
    Bit(u.flags, 1) == 1
  }

  /** `nal_unit_type` of Table 7-1 of ITU-T H.264: the low five bits of the first byte. */
  predicate HasType(nal: seq<byte>, nalType: nat) {
    nal != [] && nal[0] as int % 32 == nalType
  }

  lemma FlagBits(flags: byte)
    ensures HasFlag(flags, GP.FLAG_KEYFRAME) <==> Bit(flags, 0) == 1
    ensures HasFlag(flags, GP.FLAG_CONFIG) <==> Bit(flags, 1) == 1
  {}

  /** The flags of a unit say keyframe for a coded slice of an IDR picture, configuration for SPS and PPS, else nothing. */
  lemma NalFlagsSay(nal: seq<byte>)
    ensures Bit(NalFlags(nal), 0) == 1 <==> HasType(nal, 5)
    ensures Bit(NalFlags(nal), 1) == 1 <==> HasType(nal, 7) || HasType(nal, 8)
    ensures forall k: nat | 2 <= k < 8 :: Bit(NalFlags(nal), k) == 0
  {
    FewBits(NalFlags(nal));
  }

  /** What the relay tells the player: the bits of a fragment's own flags, else the type of the unit; nothing for audio. */
  lemma RelayFlagsSay(p: CS.Plain)
    ensures Bit(FlagsOf(p), 0) == 1 <==>
            p.streamId == GP.STREAM_VIDEO && if IsFragment(p.data) then Bit(p.data[4], 0) == 1 else HasType(p.data, 5)
    ensures Bit(FlagsOf(p), 1) == 1 <==>
            && p.streamId == GP.STREAM_VIDEO
            && if IsFragment(p.data) then Bit(p.data[4], 1) == 1 else HasType(p.data, 7) || HasType(p.data, 8)
  {
    NalFlagsSay(p.data);
  }

  lemma {:induction false} FewBits(flags: byte)
    ensures flags < 4 ==> forall k: nat | 2 <= k < 8 :: Bit(flags, k) == 0
  {
    if flags < 4 {
      forall k: nat | 2 <= k < 8
        ensures Bit(flags, k) == 0
      {
        assert Bit(flags, k) == Bit(flags / 2, k - 1) == Bit(flags / 2 / 2, k - 2);
        ZeroBits(k - 2);
      }
    }
  }

  lemma {:induction false} ZeroBits(k: nat)
    ensures Bit(0, k) == 0
  {
    if k > 0 {
      ZeroBits(k - 1);
    }
  }

  // Parameter sets

  predicate Sets(u: Unit, nalType: nat) {
    IsParameters(u) && HasType(u.nal, nalType)
  }

  /** The last unit that sets this kind of parameter, or what was held before. */
  function LastSet(us: seq<Unit>, nalType: nat, before: seq<byte>): seq<byte>
    decreases |us|
  {
    if us == [] then before
    else if Sets(us[|us| - 1], nalType) then us[|us| - 1].nal
    else LastSet(us[..|us| - 1], nalType, before)
  }

  lemma {:induction false} LastSetIs(us: seq<Unit>, nalType: nat, before: seq<byte>, k: nat)
    requires k < |us| && Sets(us[k], nalType) && forall i | k < i < |us| :: !Sets(us[i], nalType)
    ensures LastSet(us, nalType, before) == us[k].nal
    decreases |us|
  {
    hide Sets;
    if k < |us| - 1 {
      LastSetIs(us[..|us| - 1], nalType, before, k);
    }
  }

  lemma {:induction false} NeverSet(us: seq<Unit>, nalType: nat, before: seq<byte>)
    requires forall i | 0 <= i < |us| :: !Sets(us[i], nalType)
    ensures LastSet(us, nalType, before) == before
    decreases |us|
  {
    hide Sets;
    if us != [] {
      NeverSet(us[..|us| - 1], nalType, before);
    }
  }

  // Packets for the decoder

  function NonEmpty(nals: seq<seq<byte>>): (r: seq<seq<byte>>)
    ensures [] !in r
  {
    if nals == [] then [] else (if nals[0] == [] then [] else [nals[0]]) + NonEmpty(nals[1..])
  }

  /** What a packet has to hold: the unit, behind the parameter sets if it is a keyframe. */
  function Contents(u: Unit, sps: seq<byte>, pps: seq<byte>): seq<seq<byte>> {
    NonEmpty(if IsKeyframe(u) then [sps, pps, u.nal] else [u.nal])
  }

  /** The packets for units after which these parameter sets are held first: each with the sets seen last before it. */
  function Packets(us: seq<Unit>, sps: seq<byte>, pps: seq<byte>): seq<VQ.Packet>
    decreases |us|
  {
    if us == [] then []
    else
      var front, u := us[..|us| - 1], us[|us| - 1];
      Packets(front, sps, pps)
      + if IsParameters(u) then []
        else [VQ.Packet(AnnexB.Join(Contents(u, LastSet(front, 7, sps), LastSet(front, 8, pps))), IsKeyframe(u), u.seqNo)]
  }

  /** The gate after these packets have arrived, each enqueued and then trimmed. */
  function Gated(g: VQ.Gate, ps: seq<VQ.Packet>): VQ.Gate
    decreases |ps|
  {
    if ps == [] then g else VQ.Trim(VQ.Enqueue(Gated(g, ps[..|ps| - 1]), ps[|ps| - 1]))
  }

  lemma {:induction false} AppendIsJoin(packet: seq<byte>, nal: seq<byte>, rest: seq<byte>)
    ensures AnnexB.Append(packet, nal) + rest == packet + (AnnexB.Append([], nal) + rest)
  {
    assert [] + AnnexB.START_CODE == AnnexB.START_CODE;
    Associative(packet, AnnexB.START_CODE, nal);
    Associative(packet, AnnexB.START_CODE + nal, rest);
  }

  lemma {:induction false} JoinNonEmpty(nals: seq<seq<byte>>)
    requires nals != []
    ensures AnnexB.Join(NonEmpty(nals)) == AnnexB.Append([], nals[0]) + AnnexB.Join(NonEmpty(nals[1..]))
  {
    var rest := NonEmpty(nals[1..]);
    if nals[0] == [] {
      assert NonEmpty(nals) == [] + rest == rest;
      assert [] + AnnexB.Join(rest) == AnnexB.Join(rest);
    } else {
      assert NonEmpty(nals)[1..] == rest;
    }
  }

  lemma NothingJoined()
    ensures AnnexB.Join(NonEmpty([])) == []
  {}

  lemma {:induction false} OneJoined(nal: seq<byte>)
    ensures AnnexB.Join(NonEmpty([nal])) == AnnexB.Append([], nal)
  {
    hide AnnexB.Join, AnnexB.Append, NonEmpty;
    JoinNonEmpty([nal]);
    NothingJoined();
    assert [nal][1..] == [];
    assert AnnexB.Append([], nal) + [] == AnnexB.Append([], nal);
  }

  /** What the player builds is the contents joined with start codes. */
  lemma {:induction false} DecoderPacketIs(v: Video, u: Unit)
    ensures DecoderPacket(v, u.nal, IsKeyframe(u)) == AnnexB.Join(Contents(u, v.sps, v.pps))
  {
    hide AnnexB.Join, AnnexB.Append, NonEmpty;
    OneJoined(u.nal);
    if IsKeyframe(u) {
      var sps, pps := AnnexB.Append([], v.sps), AnnexB.Append([], v.pps);
      JoinNonEmpty([v.sps, v.pps, u.nal]);
      JoinNonEmpty([v.pps, u.nal]);
      assert [v.sps, v.pps, u.nal][1..] == [v.pps, u.nal] && [v.pps, u.nal][1..] == [u.nal];
      AppendIsJoin(AnnexB.Append(sps, v.pps), u.nal, []);
      AppendIsJoin(sps, v.pps, AnnexB.Append([], u.nal));
      ByAppending(sps, v.pps, u.nal);
    }
  }

  lemma {:induction false} ByAppending(packet: seq<byte>, x: seq<byte>, y: seq<byte>)
    ensures AnnexB.Append(AnnexB.Append(packet, x), y) == packet + (AnnexB.Append([], x) + AnnexB.Append([], y))
  {
    var ax, ay := AnnexB.Append([], x), AnnexB.Append([], y);
    AppendIsJoin(AnnexB.Append(packet, x), y, []);
    AppendIsJoin(packet, x, ay);
    assert AnnexB.Append(AnnexB.Append(packet, x), y) + [] == AnnexB.Append(AnnexB.Append(packet, x), y);
    assert ay + [] == ay;
  }

  /** Cut again as the sender cuts a bitstream, a packet gives its contents exactly when none of them holds a start code. */
  lemma {:induction false} PacketComesApart(u: Unit, sps: seq<byte>, pps: seq<byte>)
    ensures var nals := Contents(u, sps, pps);
            var b := AnnexB.Join(nals);
            && (forall c | c in AnnexB.Chunks(b, 0) :: c.start <= c.end <= |b|)
            && (AnnexB.Slices(b, AnnexB.Chunks(b, 0)) == nals <==> forall n | n in nals :: AnnexB.NoStartCode(n))
  {
    AnnexB.JoinedComesApart(Contents(u, sps, pps));
  }

  /**
    The video path over any deliveries: it holds the last SPS and PPS handed over, and its gate has seen, in
    order and nothing else, one packet for each other unit.
   */
  lemma {:induction false} PathExactly(v: Video, ds: seq<Delivery>)
    requires VF.Sized(v.assembly)
    ensures var (assembly, us) := Reassembled(v.assembly, ds);
            HandleAll(v, ds) ==
              Video(assembly, LastSet(us, 7, v.sps), LastSet(us, 8, v.pps), Gated(v.gate, Packets(us, v.sps, v.pps)))
    decreases |ds|
  {
    hide VF.Feed, VQ.Enqueue, VQ.Trim, HandleVideo, DecoderPacket, AnnexB.Join;
    if ds != [] {
      var front, d := ds[..|ds| - 1], ds[|ds| - 1];
      assert ds == front + [d];
      PathExactly(v, front);
      HandleAllAppend(v, front, [d]);
      var w := HandleAll(v, front);
      HandleOne(w, d);
      if d.streamId == GP.STREAM_VIDEO {
        OneMore(v, w, d, Reassembled(v.assembly, front).1);
      }
    }
  }

  /** What one unit does. */
  function Applied(v: Video, u: Unit): Video {
    if IsParameters(u) then
      if HasType(u.nal, 7) then v.(sps := u.nal) else if HasType(u.nal, 8) then v.(pps := u.nal) else v
    else
      v.(gate := VQ.Trim(VQ.Enqueue(v.gate, VQ.Packet(AnnexB.Join(Contents(u, v.sps, v.pps)), IsKeyframe(u), u.seqNo))))
  }

  lemma {:induction false} HandleApplies(w: Video, d: Delivery)
    requires VF.Sized(w.assembly)
    ensures var (a, out) := VF.Feed(w.assembly, d.payload, d.flags);
            var w1 := w.(assembly := a);
            HandleVideo(w, d) == match out case NotReady => w1 case Ready(nal, flags) => Applied(w1, Unit(nal, flags, d.seqNo))
  {
    hide VF.Feed, VQ.Enqueue, VQ.Trim, DecoderPacket, AnnexB.Join, HasFlag, Contents, Bit;
    match VF.Feed(w.assembly, d.payload, d.flags)
    case (_, NotReady) =>
    case (a, Ready(nal, flags)) =>
      FlagBits(flags);
      DecoderPacketIs(w.(assembly := a), Unit(nal, flags, d.seqNo));
      assert NalType(nal) == 7 <==> HasType(nal, 7);
      assert NalType(nal) == 8 <==> HasType(nal, 8);
  }

  lemma {:induction false} AppliedKeeps(v: Video, w: Video, u: Unit, us: seq<Unit>)
    requires w.sps == LastSet(us, 7, v.sps) && w.pps == LastSet(us, 8, v.pps)
    requires w.gate == Gated(v.gate, Packets(us, v.sps, v.pps))
    ensures Applied(w, u) ==
              Video(w.assembly, LastSet(us + [u], 7, v.sps), LastSet(us + [u], 8, v.pps),
                    Gated(v.gate, Packets(us + [u], v.sps, v.pps)))
  {
    SetsSnoc(us, u, 7, v.sps);
    SetsSnoc(us, u, 8, v.pps);
    PacketsSnoc(us, u, v.sps, v.pps);
    GatedSnoc(v.gate, Packets(us, v.sps, v.pps), VQ.Packet(AnnexB.Join(Contents(u, w.sps, w.pps)), IsKeyframe(u), u.seqNo));
    hide VQ.Enqueue, VQ.Trim, AnnexB.Join, Contents, Bit, LastSet, Packets, Gated;
    var ps := Packets(us, v.sps, v.pps);
    assert ps + [] == ps;
  }

  /** One delivery of video more. */
  lemma {:induction false} OneMore(v: Video, w: Video, d: Delivery, us: seq<Unit>)
    requires VF.Sized(w.assembly)
    requires w.sps == LastSet(us, 7, v.sps) && w.pps == LastSet(us, 8, v.pps)
    requires w.gate == Gated(v.gate, Packets(us, v.sps, v.pps))
    ensures var (a, out) := VF.Feed(w.assembly, d.payload, d.flags);
            var us' := match out case NotReady => us case Ready(nal, flags) => us + [Unit(nal, flags, d.seqNo)];
            HandleVideo(w, d) ==
              Video(a, LastSet(us', 7, v.sps), LastSet(us', 8, v.pps), Gated(v.gate, Packets(us', v.sps, v.pps)))
  {
    hide VF.Feed, Applied, LastSet, Packets, Gated, HandleVideo;
    HandleApplies(w, d);
    match VF.Feed(w.assembly, d.payload, d.flags)
    case (_, NotReady) =>
    case (a, Ready(nal, flags)) => AppliedKeeps(v, w.(assembly := a), Unit(nal, flags, d.seqNo), us);
  }

  lemma {:induction false} SetsSnoc(us: seq<Unit>, u: Unit, nalType: nat, before: seq<byte>)
    ensures LastSet(us + [u], nalType, before) == if Sets(u, nalType) then u.nal else LastSet(us, nalType, before)
  {
    assert (us + [u])[..|us|] == us;
  }

  lemma {:induction false} PacketsSnoc(us: seq<Unit>, u: Unit, sps: seq<byte>, pps: seq<byte>)
    ensures Packets(us + [u], sps, pps) ==
            Packets(us, sps, pps)
            + if IsParameters(u) then []
              else [VQ.Packet(AnnexB.Join(Contents(u, LastSet(us, 7, sps), LastSet(us, 8, pps))), IsKeyframe(u), u.seqNo)]
  {
    hide AnnexB.Join;
    assert (us + [u])[..|us|] == us;
  }

  lemma {:induction false} GatedSnoc(g: VQ.Gate, ps: seq<VQ.Packet>, p: VQ.Packet)
    ensures Gated(g, ps + [p]) == VQ.Trim(VQ.Enqueue(Gated(g, ps), p))
  {
    assert (ps + [p])[..|ps|] == ps;
  }
}
