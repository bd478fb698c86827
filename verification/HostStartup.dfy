/**
  The player's startup handshake over USB (`prepare_usb_stream_startup` in
  gateway_client/gateway_client.cpp): flush, send PING, wait for the matching PONG, then for a transfer
  that starts with an init.

  The results of the bulk reads are given as one sequence, which ends where the deadline does: the flush
  takes the first of them, the handshake goes on with what it leaves.
  Each IN request of the device arrives as one bulk transfer of at most 512 bytes.
 */
module HostStartup {
  import opened Bytes
  import opened UsbProtocol
  import GP = GatewayProto

  const MAX_FLUSH: nat := 16

  datatype BulkResult = Data(bytes: seq<byte>) | Timeout | Failed

  datatype Outcome =
    | Accepted(init: seq<byte>, leftover: seq<byte>, rest: seq<BulkResult>)
    | TimedOut
    | ReadFailed
    | NotSent

  predicate IsPong(b: seq<byte>, seqNo: u32) {
    |b| >= PING_PACKET_SIZE && b[..4] == PONG && ReadLe32(b[4..]) == seqNo
  }

  predicate StartsInit(b: seq<byte>) {
    |b| >= GP.INIT_SIZE && GP.ReadInit(b).Some?
  }

  /** No data: the loop just reads again. */
  predicate Silent(r: BulkResult) {
    r == Timeout || r == Data([])
  }

  function Handshake(inbox: seq<BulkResult>, seqNo: u32, gotPong: bool): Outcome {
    if inbox == [] then TimedOut
    else if Silent(inbox[0]) then Handshake(inbox[1..], seqNo, gotPong)
    else if inbox[0] == Failed then ReadFailed
    else
      var b := inbox[0].bytes;
      if gotPong && StartsInit(b) then Accepted(b[..GP.INIT_SIZE], b[GP.INIT_SIZE..], inbox[1..])
      else Handshake(inbox[1..], seqNo, gotPong || IsPong(b, seqNo))
  }

  /** A read that ends the flush. */
  predicate EndsFlush(r: BulkResult) {
    Silent(r) || r == Failed
  }

  /** The reads that a flush leaves, when it has thrown away `flushed` transfers already. */
  function AfterFlush(results: seq<BulkResult>, flushed: nat): (rest: seq<BulkResult>)
    ensures |rest| <= |results|
  {
    if flushed >= MAX_FLUSH || results == [] then results
    else if EndsFlush(results[0]) then results[1..]
    else AfterFlush(results[1..], flushed + 1)
  }

  /** The flush: how many transfers it throws away, and how many reads it takes. */
  method Flush(results: seq<BulkResult>) returns (flushed: nat, taken: nat)
    ensures flushed <= MAX_FLUSH && taken <= |results| && results[taken..] == AfterFlush(results, 0)
    ensures forall i | 0 <= i < flushed :: i < taken && !EndsFlush(results[i])
  {
    flushed, taken := 0, 0;
    assert results[0..] == results;
    while flushed < MAX_FLUSH && taken < |results|
      invariant flushed == taken <= |results| && flushed <= MAX_FLUSH
      invariant AfterFlush(results, 0) == AfterFlush(results[taken..], flushed)
      invariant forall i | 0 <= i < flushed :: !EndsFlush(results[i])
    {
      assert results[taken..][0] == results[taken] && results[taken..][1..] == results[taken + 1..];
      if EndsFlush(results[taken]) {
        taken := taken + 1;
        return;
      }
      taken := taken + 1;
      flushed := flushed + 1;
    }
  }

  method PrepareUsbStreamStartup(results: seq<BulkResult>, configSent: bool, pingSent: bool, seqNo: u32)
    returns (outcome: Outcome)
    ensures outcome == if configSent && pingSent then Handshake(AfterFlush(results, 0), seqNo, false) else NotSent
  {
    var flushed, taken := Flush(results);
    if !configSent || !pingSent {
      return NotSent;
    }
    var inbox := results[taken..];
    var gotPong := false;
    var i := 0;
    while i < |inbox|
      invariant 0 <= i <= |inbox|
      invariant Handshake(inbox, seqNo, false) == Handshake(inbox[i..], seqNo, gotPong)
    {
      assert inbox[i..][0] == inbox[i] && inbox[i..][1..] == inbox[i + 1..];
      var r := inbox[i];
      i := i + 1;
      if Silent(r) {
        continue;
      }
      if r == Failed {
        return ReadFailed;
      }
      var buf := r.bytes;
      if gotPong && |buf| >= GP.INIT_SIZE && GP.ReadInit(buf).Some? {
        return Accepted(buf[..GP.INIT_SIZE], buf[GP.INIT_SIZE..], inbox[i..]);
      }
      if |buf| >= PING_PACKET_SIZE {
        if buf[..4] == PONG && ReadLe32(buf[4..]) == seqNo {
          gotPong := true;
          continue;
        }
      }
    }
    return TimedOut;
  }

  /**
    The init was accepted at a, after the matching PONG at p (-1 when that was seen before): it is the
    first transfer after the first PONG that starts with an init, and nothing behind it was lost.
   */
  predicate AcceptedAt(inbox: seq<BulkResult>, seqNo: u32, gotPong: bool, o: Outcome, p: int, a: nat)
    requires o.Accepted?
  {
    && -1 <= p < a < |inbox|
    && (if gotPong then p == -1 else p >= 0 && inbox[p].Data? && IsPong(inbox[p].bytes, seqNo))
    && inbox[a] == Data(o.init + o.leftover) && StartsInit(inbox[a].bytes) && |o.init| == GP.INIT_SIZE
    && o.rest == inbox[a + 1..]
    && (forall i | p < i < a :: inbox[i].Data? ==> !StartsInit(inbox[i].bytes))
    && (forall i | 0 <= i < p :: inbox[i].Data? ==> !IsPong(inbox[i].bytes, seqNo))
    && (forall i | 0 <= i < a :: inbox[i] != Failed)
  }

  lemma {:induction false} AcceptedAfterPong(inbox: seq<BulkResult>, seqNo: u32, gotPong: bool) returns (p: int, a: nat)
    requires Handshake(inbox, seqNo, gotPong).Accepted?
    ensures AcceptedAt(inbox, seqNo, gotPong, Handshake(inbox, seqNo, gotPong), p, a)
    decreases |inbox|
  {
    hide AcceptedAt, IsPong, StartsInit;
    var o := Handshake(inbox, seqNo, gotPong);
    var here := inbox[0].Data? && inbox[0].bytes != [];
    var taken := here && gotPong && StartsInit(inbox[0].bytes);
    var pong := here && !gotPong && IsPong(inbox[0].bytes, seqNo);
    if taken {
      p, a := -1, 0;
      TakenHere(inbox, seqNo, o);
    } else if pong {
      p, a := AcceptedAfterPong(inbox[1..], seqNo, true);
      TakenAfterThisPong(inbox, seqNo, o, p, a);
      p, a := 0, a + 1;
    } else {
      p, a := AcceptedAfterPong(inbox[1..], seqNo, gotPong);
      TakenLater(inbox, seqNo, gotPong, o, p, a);
      p, a := if gotPong then -1 else p + 1, a + 1;
    }
  }

  lemma {:induction false} TakenHere(inbox: seq<BulkResult>, seqNo: u32, o: Outcome)
    requires inbox != [] && inbox[0].Data? && StartsInit(inbox[0].bytes)
    requires o == Accepted(inbox[0].bytes[..GP.INIT_SIZE], inbox[0].bytes[GP.INIT_SIZE..], inbox[1..])
    ensures AcceptedAt(inbox, seqNo, true, o, -1, 0)
  {
    hide IsPong;
    SplitAt(inbox[0].bytes, GP.INIT_SIZE);
  }

  lemma {:induction false} TakenAfterThisPong(inbox: seq<BulkResult>, seqNo: u32, o: Outcome, p: int, a: nat)
    requires inbox != [] && inbox[0].Data? && IsPong(inbox[0].bytes, seqNo)
    requires o.Accepted? && AcceptedAt(inbox[1..], seqNo, true, o, p, a)
    ensures AcceptedAt(inbox, seqNo, false, o, 0, a + 1)
  {
    hide IsPong, StartsInit;
    ShiftBack(inbox, a + 1);
  }

  lemma {:induction false} TakenLater(inbox: seq<BulkResult>, seqNo: u32, gotPong: bool, o: Outcome, p: int, a: nat)
    requires inbox != [] && inbox[0] != Failed
    requires inbox[0].Data? && inbox[0].bytes != [] ==>
               (gotPong ==> !StartsInit(inbox[0].bytes)) && (!gotPong ==> !IsPong(inbox[0].bytes, seqNo))
    requires o.Accepted? && AcceptedAt(inbox[1..], seqNo, gotPong, o, p, a)
    ensures AcceptedAt(inbox, seqNo, gotPong, o, if gotPong then -1 else p + 1, a + 1)
  {
    NotBothEmpty([], seqNo);
    hide IsPong, StartsInit;
    ShiftBack(inbox, a + 1);
  }

  lemma ShiftBack(inbox: seq<BulkResult>, a: nat)
    requires 0 < a < |inbox|
    ensures inbox[1..][a..] == inbox[a + 1..]
    ensures forall i | 1 <= i < |inbox| :: inbox[1..][i - 1] == inbox[i]
  {}

  // Against the device: stale transfers, the PONG, then the chunks of the session

  function Transfers(parts: seq<seq<byte>>): (inbox: seq<BulkResult>)
    ensures |inbox| == |parts|
  {
    seq(|parts|, i requires 0 <= i < |parts| => Data(parts[i]))
  }

  function DataOf(inbox: seq<BulkResult>): seq<byte> {
    if inbox == [] then []
    else (if inbox[0].Data? then inbox[0].bytes else []) + DataOf(inbox[1..])
  }

  lemma {:induction false} BytesOfTransfers(parts: seq<seq<byte>>)
    ensures DataOf(Transfers(parts)) == Concat(parts)
  {
    if parts != [] {
      assert Transfers(parts)[1..] == Transfers(parts[1..]);
      BytesOfTransfers(parts[1..]);
    }
  }

  /** The player has this session's init, and what it holds and will still read is the rest of the session's bytes. */
  predicate InStep(o: Outcome, init: seq<byte>, session: seq<byte>) {
    o.Accepted? && o.init == init && |session| >= |init| && o.leftover + DataOf(o.rest) == session[|init|..]
  }

  // Transfers left over from an earlier session

  /** One of them is a PONG with our sequence number. */
  predicate StalePong(stale: seq<seq<byte>>, seqNo: u32) {
    exists i | 0 <= i < |stale| :: IsPong(stale[i], seqNo)
  }

  /** An init of the earlier session follows such a PONG. */
  predicate StaleInit(stale: seq<seq<byte>>, seqNo: u32) {
    exists j | 0 <= j < |stale| :: StartsInit(stale[j]) && StalePong(stale[..j], seqNo)
  }

  /** The same for transfers that come after those of `before`. */
  predicate InitAfter(before: seq<seq<byte>>, stale: seq<seq<byte>>, seqNo: u32) {
    exists j | 0 <= j < |stale| :: StartsInit(stale[j]) && StalePong(before + stale[..j], seqNo)
  }

  lemma {:induction false} StalePongSnoc(before: seq<seq<byte>>, b: seq<byte>, seqNo: u32)
    ensures StalePong(before + [b], seqNo) <==> StalePong(before, seqNo) || IsPong(b, seqNo)
  {
    var all := before + [b];
    if StalePong(before, seqNo) {
      var i :| 0 <= i < |before| && IsPong(before[i], seqNo);
      assert IsPong(all[i], seqNo);
    }
    if IsPong(b, seqNo) {
      assert IsPong(all[|before|], seqNo);
    }
  }

  lemma {:induction false} InitAfterStep(before: seq<seq<byte>>, stale: seq<seq<byte>>, seqNo: u32)
    requires stale != []
    ensures InitAfter(before, stale, seqNo) <==>
            (StartsInit(stale[0]) && StalePong(before, seqNo)) || InitAfter(before + [stale[0]], stale[1..], seqNo)
  {
    hide StalePong;
    var next, later := before + [stale[0]], stale[1..];
    assert before + stale[..0] == before;
    forall j | 0 <= j < |later|
      ensures later[j] == stale[j + 1] && next + later[..j] == before + stale[..j + 1]
    {
      assert [stale[0]] + later[..j] == stale[..j + 1];
      Associative(before, [stale[0]], later[..j]);
    }
    if InitAfter(before, stale, seqNo) {
      var j :| 0 <= j < |stale| && StartsInit(stale[j]) && StalePong(before + stale[..j], seqNo);
      if j > 0 {
        assert StartsInit(later[j - 1]) && StalePong(next + later[..j - 1], seqNo);
      }
    }
    if InitAfter(next, later, seqNo) {
      var j :| 0 <= j < |later| && StartsInit(later[j]) && StalePong(next + later[..j], seqNo);
      assert StartsInit(stale[j + 1]) && StalePong(before + stale[..j + 1], seqNo);
    }
  }

  /**
    Stale transfers either hand over an init of their own, and then everything after it is taken for the
    stream, or are passed over, leaving only whether a PONG was among them.
   */
  lemma {:induction false} PastStale(before: seq<seq<byte>>, stale: seq<seq<byte>>, inbox: seq<BulkResult>, seqNo: u32)
    ensures var o := Handshake(Transfers(stale) + inbox, seqNo, StalePong(before, seqNo));
            if InitAfter(before, stale, seqNo)
            then o.Accepted? && |o.leftover + DataOf(o.rest)| >= |DataOf(inbox)|
            else o == Handshake(inbox, seqNo, StalePong(before + stale, seqNo))
    decreases |stale|
  {
    hide StalePong, InitAfter, StartsInit, IsPong;
    var all := Transfers(stale) + inbox;
    if stale == [] {
      assert all == inbox && before + stale == before;
      NothingAfter(before, seqNo);
    } else {
      var b, later := stale[0], stale[1..];
      assert all[0] == Data(b) && all[1..] == Transfers(later) + inbox;
      InitAfterStep(before, stale, seqNo);
      StalePongSnoc(before, b, seqNo);
      NotBothEmpty(b, seqNo);
      if StartsInit(b) && StalePong(before, seqNo) {
        DataOfAppend(Transfers(later), inbox);
      } else {
        PastStale(before + [b], later, inbox, seqNo);
        assert before + [b] + later == before + stale;
      }
    }
  }

  lemma NothingAfter(before: seq<seq<byte>>, seqNo: u32)
    ensures !InitAfter(before, [], seqNo)
  {}

  lemma NotBothEmpty(b: seq<byte>, seqNo: u32)
    ensures b == [] ==> !IsPong(b, seqNo) && !StartsInit(b)
  {}

  lemma {:induction false} DataOfAppend(xs: seq<BulkResult>, ys: seq<BulkResult>)
    ensures DataOf(xs + ys) == DataOf(xs) + DataOf(ys)
  {
    if xs == [] {
      assert xs + ys == ys;
    } else {
      assert (xs + ys)[1..] == xs[1..] + ys;
      DataOfAppend(xs[1..], ys);
    }
  }

  lemma {:induction false} FromNothing(stale: seq<seq<byte>>, seqNo: u32)
    ensures !StalePong([], seqNo) && [] + stale == stale
    ensures InitAfter([], stale, seqNo) <==> StaleInit(stale, seqNo)
  {
    hide StalePong, StartsInit;
    assert !StalePong([], seqNo) by {
      NoPongYet(seqNo);
    }
    forall j | 0 <= j < |stale|
      ensures [] + stale[..j] == stale[..j]
    {}
    if InitAfter([], stale, seqNo) {
      var j :| 0 <= j < |stale| && StartsInit(stale[j]) && StalePong([] + stale[..j], seqNo);
      assert [] + stale[..j] == stale[..j];
    }
    if StaleInit(stale, seqNo) {
      var j :| 0 <= j < |stale| && StartsInit(stale[j]) && StalePong(stale[..j], seqNo);
      assert [] + stale[..j] == stale[..j];
    }
  }

  lemma NoPongYet(seqNo: u32)
    ensures !StalePong([], seqNo)
  {}

  /** What is accepted later than the first transfer is short of the whole session. */
  lemma {:induction false} AcceptedLater(chunks: seq<seq<byte>>, seqNo: u32, gotPong: bool)
    requires [] !in chunks && Handshake(Transfers(chunks), seqNo, gotPong).Accepted?
    ensures var o := Handshake(Transfers(chunks), seqNo, gotPong);
            && |o.init| == GP.INIT_SIZE
            && |o.init| + |o.leftover| + |DataOf(o.rest)| <= |Concat(chunks)|
            && (|o.init| + |o.leftover| + |DataOf(o.rest)| == |Concat(chunks)| ==> gotPong && |chunks[0]| >= GP.INIT_SIZE)
    decreases |chunks|
  {
    assert chunks[0] in chunks;
    assert Transfers(chunks)[1..] == Transfers(chunks[1..]);
    BytesOfTransfers(chunks[1..]);
    if !(gotPong && StartsInit(chunks[0])) {
      AcceptedLater(chunks[1..], seqNo, gotPong || IsPong(chunks[0], seqNo));
    }
  }

  lemma {:induction false} PongIsPong(seqNo: u32, b: seq<byte>)
    requires b <= PongBytes(seqNo)
    ensures IsPong(b, seqNo) <==> |b| == PING_PACKET_SIZE
  {
    if |b| == PING_PACKET_SIZE {
      assert b == PongBytes(seqNo);
      assert b[..4] == PONG;
      Le32ThenRead(seqNo, b[8..]);
      assert b[4..] == Le32(seqNo) + b[8..];
    }
  }

  lemma {:induction false} PongIsNoInit(seqNo: u32, b: seq<byte>)
    requires b <= PongBytes(seqNo)
    ensures !StartsInit(b)
  {
    if |b| >= GP.INIT_SIZE {
      assert b[0] == PongBytes(seqNo)[0] == PONG[0];
      assert ReadBe32(b) / 0x100_0000 == b[0];
    }
  }

  /**
    Startup against a session of the firmware, behind any transfers of an earlier one. The player ends up
    in step with the stream exactly when no stale init follows a stale PONG of the same sequence number,
    a PONG of that number was seen whole (this session's, or a stale one), and the first chunk carries the
    whole init. The sequence number is a constant of the player, so stale PONGs do match.
   */
  lemma {:induction false} StartupInStep(
      stale: seq<seq<byte>>, pong: seq<byte>, chunks: seq<seq<byte>>, seqNo: u32, init: GP.InitInfo)
    requires pong != [] && pong <= PongBytes(seqNo) && [] !in chunks
    requires forall k | 0 <= k <= Min(|Concat(chunks)|, GP.INIT_SIZE) :: Concat(chunks)[..k] == GP.InitBytes(init)[..k]
    ensures InStep(Handshake(Transfers(stale + [pong] + chunks), seqNo, false), GP.InitBytes(init), Concat(chunks))
       <==> && !StaleInit(stale, seqNo)
            && (StalePong(stale, seqNo) || |pong| == PING_PACKET_SIZE)
            && chunks != [] && |chunks[0]| >= GP.INIT_SIZE
  {
    hide StaleInit, StalePong, InitAfter, PongBytes;
    var inbox := [Data(pong)] + Transfers(chunks);
    assert Transfers(stale + [pong] + chunks) == Transfers(stale) + inbox;
    assert inbox[1..] == Transfers(chunks);
    FromNothing(stale, seqNo);
    PastStale([], stale, inbox, seqNo);
    BytesOfTransfers(chunks);
    PongIsPong(seqNo, pong);
    PongIsNoInit(seqNo, pong);
    if !StaleInit(stale, seqNo) {
      InStepAfterPong(chunks, seqNo, StalePong(stale, seqNo) || |pong| == PING_PACKET_SIZE, init);
    }
  }

  /** The chunks alone, once it is settled whether a PONG was seen. */
  lemma {:induction false} InStepAfterPong(chunks: seq<seq<byte>>, seqNo: u32, gotPong: bool, init: GP.InitInfo)
    requires [] !in chunks
    requires forall k | 0 <= k <= Min(|Concat(chunks)|, GP.INIT_SIZE) :: Concat(chunks)[..k] == GP.InitBytes(init)[..k]
    ensures InStep(Handshake(Transfers(chunks), seqNo, gotPong), GP.InitBytes(init), Concat(chunks))
       <==> gotPong && chunks != [] && |chunks[0]| >= GP.INIT_SIZE
  {
    var o := Handshake(Transfers(chunks), seqNo, gotPong);
    if o.Accepted? {
      AcceptedLater(chunks, seqNo, gotPong);
      if InStep(o, GP.InitBytes(init), Concat(chunks)) {
        assert |o.leftover + DataOf(o.rest)| == |Concat(chunks)| - GP.INIT_SIZE;
      }
    }
    if gotPong && chunks != [] && |chunks[0]| >= GP.INIT_SIZE {
      FirstChunkAccepted(chunks, seqNo, init);
    }
  }

  lemma {:induction false} FirstChunkAccepted(chunks: seq<seq<byte>>, seqNo: u32, init: GP.InitInfo)
    requires chunks != [] && |chunks[0]| >= GP.INIT_SIZE
    requires |Concat(chunks)| >= GP.INIT_SIZE ==> Concat(chunks)[..GP.INIT_SIZE] == GP.InitBytes(init)
    ensures InStep(Handshake(Transfers(chunks), seqNo, true), GP.InitBytes(init), Concat(chunks))
  {
    var b := chunks[0];
    assert Concat(chunks) == b + Concat(chunks[1..]);
    assert Concat(chunks)[..GP.INIT_SIZE] == b[..GP.INIT_SIZE];
    GP.InitRoundTrip(init, b[GP.INIT_SIZE..]);
    assert b == GP.InitBytes(init) + b[GP.INIT_SIZE..];
    assert Transfers(chunks)[0] == Data(b) && Transfers(chunks)[1..] == Transfers(chunks[1..]);
    BytesOfTransfers(chunks[1..]);
    assert Concat(chunks)[GP.INIT_SIZE..] == b[GP.INIT_SIZE..] + Concat(chunks[1..]);
  }

  // The flush before it

  lemma {:induction false} FlushSkips(stale: seq<seq<byte>>, rest: seq<BulkResult>, flushed: nat)
    requires [] !in stale && flushed <= MAX_FLUSH
    ensures var n := Min(MAX_FLUSH - flushed, |stale|);
            AfterFlush(Transfers(stale) + [Timeout] + rest, flushed)
            == Transfers(stale[n..]) + (if flushed + |stale| < MAX_FLUSH then rest else [Timeout] + rest)
    decreases |stale|
  {
    var all := Transfers(stale) + [Timeout] + rest;
    if flushed < MAX_FLUSH {
      if stale == [] {
        assert all[0] == Timeout && all[1..] == rest;
        assert Transfers(stale[0..]) == [] && [] + rest == rest;
      } else {
        assert stale[0] in stale && all[0] == Data(stale[0]);
        assert all[1..] == Transfers(stale[1..]) + [Timeout] + rest;
        FlushSkips(stale[1..], rest, flushed + 1);
        assert stale[1..][Min(MAX_FLUSH - flushed - 1, |stale| - 1)..] == stale[Min(MAX_FLUSH - flushed, |stale|)..];
      }
    } else {
      assert stale[0..] == stale;
      Associative(Transfers(stale), [Timeout], rest);
    }
  }

  /** A silent read more or less makes no difference to the handshake. */
  lemma {:induction false} SilencePasses(xs: seq<BulkResult>, ys: seq<BulkResult>, seqNo: u32, gotPong: bool)
    ensures var o, o' := Handshake(xs + [Timeout] + ys, seqNo, gotPong), Handshake(xs + ys, seqNo, gotPong);
            if o'.Accepted? then o.Accepted? && o.init == o'.init && o.leftover == o'.leftover && DataOf(o.rest) == DataOf(o'.rest)
            else o == o'
    decreases |xs|
  {
    hide IsPong, StartsInit;
    var all, some := xs + [Timeout] + ys, xs + ys;
    if xs == [] {
      assert all[0] == Timeout && all[1..] == ys && some == ys;
    } else {
      assert all[0] == xs[0] && all[1..] == xs[1..] + [Timeout] + ys && some[0] == xs[0] && some[1..] == xs[1..] + ys;
      DataOfAppend(xs[1..], [Timeout] + ys);
      DataOfAppend(xs[1..], ys);
      assert DataOf([Timeout] + ys) == [] + DataOf(ys) by {
        assert ([Timeout] + ys)[1..] == ys;
      }
      Associative(xs[1..], [Timeout], ys);
      SilencePasses(xs[1..], ys, seqNo, gotPong);
      SilencePasses(xs[1..], ys, seqNo, true);
    }
  }

  /** What startup comes to when the endpoint holds stale transfers, is then silent, and then brings a session's. */
  function Startup(stale: seq<seq<byte>>, session: seq<seq<byte>>, seqNo: u32): Outcome {
    Handshake(AfterFlush(Transfers(stale) + [Timeout] + Transfers(session), 0), seqNo, false)
  }

  /** The stale transfers that the flush leaves. */
  function Unflushed(stale: seq<seq<byte>>): seq<seq<byte>> {
    stale[Min(MAX_FLUSH, |stale|)..]
  }

  /**
    The whole startup. The endpoint holds transfers of an earlier session, then is silent until the PING, and
    then gives this session's PONG and chunks. The flush takes the first sixteen of the stale ones; only those
    it leaves count: with no more than sixteen, a PONG seen whole and a first chunk that holds the init suffice.
   */
  lemma {:induction false} StartupAfterFlush(
      stale: seq<seq<byte>>, pong: seq<byte>, chunks: seq<seq<byte>>, seqNo: u32, init: GP.InitInfo)
    requires pong != [] && pong <= PongBytes(seqNo) && [] !in chunks && [] !in stale
    requires forall k | 0 <= k <= Min(|Concat(chunks)|, GP.INIT_SIZE) :: Concat(chunks)[..k] == GP.InitBytes(init)[..k]
    ensures InStep(Startup(stale, [pong] + chunks, seqNo), GP.InitBytes(init), Concat(chunks))
       <==> && !StaleInit(Unflushed(stale), seqNo)
            && (StalePong(Unflushed(stale), seqNo) || |pong| == PING_PACKET_SIZE)
            && chunks != [] && |chunks[0]| >= GP.INIT_SIZE
  {
    hide Handshake, AfterFlush, StaleInit, StalePong, PongBytes, GP.InitBytes;
    var rest := Transfers([pong] + chunks);
    var left := Unflushed(stale);
    FlushSkips(stale, rest, 0);
    SilencePasses(Transfers(left), rest, seqNo, false);
    Associative(Transfers(left), [Timeout], rest);
    assert Transfers(left) + rest == Transfers(left + [pong] + chunks);
    StartupInStep(left, pong, chunks, seqNo, init);
  }

  /** Up to sixteen stale transfers do no harm: nothing is left of them. */
  lemma {:induction false} NothingStaleLeft(stale: seq<seq<byte>>, seqNo: u32)
    ensures |stale| <= 16 ==> !StaleInit(Unflushed(stale), seqNo) && !StalePong(Unflushed(stale), seqNo)
  {
    if |stale| <= 16 {
      assert Unflushed(stale) == [];
      NoPongYet(seqNo);
    }
  }
}
