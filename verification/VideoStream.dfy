/**
  A whole video stream from the sender's bitstream to the decoder's packets: the NAL units that the sender cuts
  are what the player builds its packets of, through fragments, ring, transfers and whatever audio is between.
 */
module VideoStream {
  import opened Bytes
  import opened Frames
  import opened UsbProtocol
  import opened HostReader
  import opened Pipeline
  import opened PlayerVideo
  import P = Player
  import GP = GatewayProto
  import CS = CryptoStream
  import VF = VideoFragments
  import VA = VideoAssembly
  import AnnexB

  /** What the sender hands to the encrypted sends for a list of units, each under its frame id. */
  function SentPackets(nals: seq<seq<byte>>, ids: seq<u32>): seq<seq<byte>>
    requires |ids| == |nals|
  {
    if nals == [] then [] else VF.MediaPackets(nals[0], ids[0]) + SentPackets(nals[1..], ids[1..])
  }

  predicate AllSendableUnits(nals: seq<seq<byte>>) {
    forall i | 0 <= i < |nals| :: nals[i] != [] && VA.Sendable(nals[i])
  }

  // Whole payloads among the outputs of reassembly

  function Wholes(outs: seq<VF.Output>): seq<(seq<byte>, byte)> {
    if outs == [] then []
    else (if outs[0].Ready? then [(outs[0].payload, outs[0].flags)] else []) + Wholes(outs[1..])
  }

  lemma {:induction false} WholesAppend(xs: seq<VF.Output>, ys: seq<VF.Output>)
    ensures Wholes(xs + ys) == Wholes(xs) + Wholes(ys)
  {
    if xs == [] {
      assert xs + ys == ys;
    } else {
      assert (xs + ys)[0] == xs[0] && (xs + ys)[1..] == xs[1..] + ys;
      WholesAppend(xs[1..], ys);
      Associative(if xs[0].Ready? then [(xs[0].payload, xs[0].flags)] else [], Wholes(xs[1..]), Wholes(ys));
    }
  }

  lemma {:induction false} WholesOfOutputs(n: nat, payload: seq<byte>, flags: byte)
    ensures Wholes(VA.Outputs(n, VF.Ready(payload, flags))) == [(payload, flags)]
  {
    var last := VF.Ready(payload, flags);
    VA.OutputsFirst(n, last);
    if n > 0 {
      WholesAppend([VF.NotReady], VA.Outputs(n - 1, last));
      assert Wholes([VF.NotReady]) == [] + Wholes([]) == [];
      WholesOfOutputs(n - 1, payload, flags);
    } else {
      assert Wholes([last]) == [(payload, flags)] + Wholes([]);
    }
  }

  function WithFlags(nals: seq<seq<byte>>): (r: seq<(seq<byte>, byte)>)
    ensures |r| == |nals|
  {
    seq(|nals|, i requires 0 <= i < |nals| => (nals[i], NalFlags(nals[i])))
  }

  /** A receiver that is not assembling anything hands over every unit, with its flags, in order. */
  lemma {:induction false} UnitsComeWhole(s: VF.Assembly, nals: seq<seq<byte>>, ids: seq<u32>)
    requires VF.Sized(s) && !s.active && |ids| == |nals| && AllSendableUnits(nals)
    ensures var (s', outs) := VA.FeedAll(s, SentPackets(nals, ids));
            !s'.active && Wholes(outs) == WithFlags(nals)
    decreases |nals|
  {
    hide VF.MediaPackets, VA.FeedAll, VA.Sendable, NalFlags, VA.Outputs;
    if nals == [] {
      VA.FeedNothing(s, []);
    } else {
      var first, later := VF.MediaPackets(nals[0], ids[0]), SentPackets(nals[1..], ids[1..]);
      VA.FeedAllAppend(s, first, later);
      NotAssembling(s, nals[0], ids[0]);
      VA.DeliveredIffSendable(s, nals[0], ids[0]);
      VA.RestsAfter(s, nals[0], ids[0]);
      var (s1, outs1) := VA.FeedAll(s, first);
      WholesOfOutputs(|outs1| - 1, nals[0], NalFlags(nals[0]));
      UnitsComeWhole(s1, nals[1..], ids[1..]);
      WholesAppend(outs1, VA.FeedAll(s1, later).1);
      assert WithFlags(nals) == [(nals[0], NalFlags(nals[0]))] + WithFlags(nals[1..]);
    }
  }

  lemma NotAssembling(s: VF.Assembly, nal: seq<byte>, id: u32)
    requires !s.active
    ensures VA.Unrelated(s, nal, id)
  {}

  // The player's units are those

  function Bare(us: seq<Unit>): (r: seq<(seq<byte>, byte)>)
    ensures |r| == |us|
  {
    seq(|us|, i requires 0 <= i < |us| => (us[i].nal, us[i].flags))
  }

  predicate RelayFlagged(ds: seq<P.Delivery>) {
    forall i | 0 <= i < |ds| :: ds[i].streamId == GP.STREAM_VIDEO ==> ds[i].flags == VideoFlags(ds[i].payload)
  }

  lemma {:induction false} PayloadsSnoc(ds: seq<P.Delivery>, d: P.Delivery)
    ensures VideoPayloads(ds + [d]) == VideoPayloads(ds) + if d.streamId == GP.STREAM_VIDEO then [d.payload] else []
  {
    if ds == [] {
      assert [] + [d] == [d] && [d][1..] == [];
      assert VideoPayloads([d]) == (if d.streamId == GP.STREAM_VIDEO then [d.payload] else []) + VideoPayloads([]);
    } else {
      assert (ds + [d])[0] == ds[0] && (ds + [d])[1..] == ds[1..] + [d];
      PayloadsSnoc(ds[1..], d);
      Associative(if ds[0].streamId == GP.STREAM_VIDEO then [ds[0].payload] else [], VideoPayloads(ds[1..]),
                  if d.streamId == GP.STREAM_VIDEO then [d.payload] else []);
    }
  }

  /** Reassembly over deliveries is reassembly over the video payloads among them. */
  lemma {:induction false} ReassembledIsFed(a: VF.Assembly, ds: seq<P.Delivery>)
    requires VF.Sized(a) && RelayFlagged(ds)
    ensures var (s, outs) := VA.FeedAll(a, VideoPayloads(ds));
            Reassembled(a, ds).0 == s && Bare(Reassembled(a, ds).1) == Wholes(outs)
    decreases |ds|
  {
    hide VF.Feed, VA.FeedAll, VideoFlags;
    if ds == [] {
      VA.FeedNothing(a, []);
    } else {
      var front, d := ds[..|ds| - 1], ds[|ds| - 1];
      assert ds == front + [d];
      ReassembledIsFed(a, front);
      PayloadsSnoc(front, d);
      var (s, outs) := VA.FeedAll(a, VideoPayloads(front));
      if d.streamId == GP.STREAM_VIDEO {
        VA.FeedAllAppend(a, VideoPayloads(front), [d.payload]);
        VA.FeedAllStep(s, [d.payload]);
        var (s1, out) := VF.Feed(s, d.payload, d.flags);
        VA.FeedNothing(s1, [d.payload][1..]);
        assert VA.FeedAll(s, [d.payload]).1 == [out] + [] == [out];
        assert RelayFlagged(front) && d.flags == VideoFlags(d.payload);
        WholesAppend(outs, [out]);
        assert Wholes([out]) == (if out.Ready? then [(out.payload, out.flags)] else []) + Wholes([]);
        BareSnoc(Reassembled(a, front).1, out, d.seqNo);
      } else {
        assert VideoPayloads(front) + [] == VideoPayloads(front);
      }
    }
  }

  lemma BareSnoc(us: seq<Unit>, out: VF.Output, seqNo: u32)
    ensures out.Ready? ==> Bare(us + [Unit(out.payload, out.flags, seqNo)]) == Bare(us) + [(out.payload, out.flags)]
    ensures Bare(us) + [] == Bare(us)
  {}

  /** These units, each flagged for what its NAL type says. */
  ghost predicate TheseUnits(us: seq<Unit>, nals: seq<seq<byte>>) {
    && |us| == |nals|
    && forall i | 0 <= i < |us| ::
         && us[i].nal == nals[i]
         && (IsKeyframe(us[i]) <==> HasType(nals[i], 5))
         && (IsParameters(us[i]) <==> HasType(nals[i], 7) || HasType(nals[i], 8))
  }

  lemma {:induction false} UnitsAre(us: seq<Unit>, nals: seq<seq<byte>>)
    requires Bare(us) == WithFlags(nals)
    ensures TheseUnits(us, nals)
  {
    hide NalFlags, Bit, HasType;
    forall i | 0 <= i < |us|
      ensures us[i].nal == nals[i] && us[i].flags == NalFlags(nals[i])
      ensures IsKeyframe(us[i]) <==> HasType(nals[i], 5)
      ensures IsParameters(us[i]) <==> HasType(nals[i], 7) || HasType(nals[i], 8)
    {
      assert Bare(us)[i] == WithFlags(nals)[i];
      NalFlagsSay(nals[i]);
    }
  }

  /**
    In any session whose transmitted video packets are those of a list of units, the player ends up holding the
    last SPS and PPS among the units, and its gate has seen exactly one packet for each of the others, in order,
    an IDR picture behind the parameter sets seen last.
   */
  lemma {:induction false} DecoderSees(ks: CS.Keystream, s: Usb, v: P.Video, nals: seq<seq<byte>>, ids: seq<u32>)
    requires Inv(ks, s) && s.log != [] && |s.acked| >= GP.INIT_SIZE && VF.Sized(v.assembly) && !v.assembly.active
    requires |ids| == |nals| && AllSendableUnits(nals) && VideoData(Received(ks, s)) == SentPackets(nals, ids)
    ensures var ds := P.Deliveries(ks, ReadAll(s.acked[GP.INIT_SIZE..]));
            var us := Reassembled(v.assembly, ds).1;
            var r := P.HandleAll(v, ds);
            && TheseUnits(us, nals)
            && r.sps == LastSet(us, 7, v.sps) && r.pps == LastSet(us, 8, v.pps)
            && r.gate == Gated(v.gate, Packets(us, v.sps, v.pps))
            && !r.assembly.active
  {
    hide Inv, ReadAll, Received, VideoFlags, P.HandleAll, Reassembled, TheseUnits, SentPackets, VA.FeedAll;
    var ds := P.Deliveries(ks, ReadAll(s.acked[GP.INIT_SIZE..]));
    ReceivedIsRead(ks, s);
    ReassembledIsFed(v.assembly, ds);
    UnitsComeWhole(v.assembly, nals, ids);
    UnitsAre(Reassembled(v.assembly, ds).1, nals);
    PathExactly(v, ds);
  }

  /** The sender's own units hold no start code, so the packets come apart into them again. */
  lemma {:induction false} CutsAreClean(b: seq<byte>, n: seq<byte>)
    ensures forall c | c in AnnexB.Chunks(b, 0) :: c.start <= c.end <= |b|
    ensures n in AnnexB.Slices(b, AnnexB.Chunks(b, 0)) ==> AnnexB.NoStartCode(n)
  {
    hide AnnexB.Chunks, AnnexB.NoStartCode;
    AnnexB.ChunksInside(b, 0);
    AnnexB.ChunksOrderedAndClean(b, 0);
    if n in AnnexB.Slices(b, AnnexB.Chunks(b, 0)) {
      var i :| 0 <= i < |AnnexB.Chunks(b, 0)| && AnnexB.Slices(b, AnnexB.Chunks(b, 0))[i] == n;
      assert AnnexB.InPlace(b, AnnexB.Chunks(b, 0), 0, i);
    }
  }
}
