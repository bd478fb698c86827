/** What fragmentation and reassembly of a video payload guarantee over whole runs. */
module VideoAssembly {
  import opened Bytes
  import opened Frames
  import opened VideoFragments

  /** Feed packets one after the other, each with the flags the relay gives it. */
  function FeedAll(s: Assembly, packets: seq<seq<byte>>): (r: (Assembly, seq<Output>))
    requires Sized(s)
    ensures Sized(r.0) && |r.1| == |packets|
    decreases |packets|
  {
    if packets == [] then (s, [])
    else
      var (s1, out) := Feed(s, packets[0], VideoFlags(packets[0]));
      var (s2, outs) := FeedAll(s1, packets[1..]);
      (s2, [out] + outs)
  }

  lemma {:induction false} FeedAllAppend(s: Assembly, xs: seq<seq<byte>>, ys: seq<seq<byte>>)
    requires Sized(s)
    ensures var (s1, outs1) := FeedAll(s, xs);
            var (s2, outs2) := FeedAll(s1, ys);
            FeedAll(s, xs + ys) == (s2, outs1 + outs2)
    decreases |xs|
  {
    hide Feed, VideoFlags;
    if xs == [] {
      assert xs + ys == ys;
      assert [] + FeedAll(s, ys).1 == FeedAll(s, ys).1;
    } else {
      var (s1, out) := Feed(s, xs[0], VideoFlags(xs[0]));
      assert (xs + ys)[0] == xs[0] && (xs + ys)[1..] == xs[1..] + ys;
      FeedAllAppend(s1, xs[1..], ys);
      Associative([out], FeedAll(s1, xs[1..]).1, FeedAll(FeedAll(s1, xs[1..]).0, ys).1);
    }
  }

  // Fragments of one frame, in any order and with duplicates

  function Indices(n: nat): (r: set<nat>)
    ensures forall i: nat :: i in r <==> i < n
    ensures |r| == n
  {
    if n == 0 then {} else Indices(n - 1) + {n - 1}
  }

  lemma {:induction false} SubsetOfIndices(got: set<nat>, n: nat)
    requires got <= Indices(n)
    ensures |got| <= n
    ensures |got| == n <==> got == Indices(n)
  {
    SetSizeMonotone(got, Indices(n));
    if i :| i in Indices(n) && i !in got {
      SetSizeMonotone(got + {i}, Indices(n));
    }
  }

  lemma {:induction false} SetSizeMonotone<T>(a: set<T>, b: set<T>)
    requires a <= b
    ensures |a| <= |b|
  {
    if a != {} {
      var x :| x in a;
      SetSizeMonotone(a - {x}, b - {x});
    }
  }

  predicate GoodParts(parts: seq<seq<byte>>) {
    0 < |parts| < 0x1_0000 && [] !in parts
  }

  /** The receiver is assembling this frame and has stored exactly the parts in `got`. */
  ghost predicate Holding(s: Assembly, parts: seq<seq<byte>>, flags: byte, frameId: u32, got: set<nat>) {
    && s.active && s.frameId == frameId && s.flags == flags && s.count == |parts| == |s.parts|
    && got <= Indices(|parts|) && s.received == |got|
    && forall i | 0 <= i < |parts| :: s.parts[i] == if i in got then parts[i] else []
  }

  /** The receiver is not assembling a frame of this id and count. */
  predicate Elsewhere(s: Assembly, frameId: u32, count: nat) {
    !(s.active && s.frameId == frameId && s.count == count)
  }

  ghost predicate Before(s: Assembly, parts: seq<seq<byte>>, flags: byte, frameId: u32, got: set<nat>) {
    if got == {} then Elsewhere(s, frameId, |parts|) else Holding(s, parts, flags, frameId, got)
  }

  lemma {:induction false} FeedPart(s: Assembly, parts: seq<seq<byte>>, flags: byte, frameId: u32, got: set<nat>, i: nat)
    requires Sized(s) && GoodParts(parts) && i < |parts|
    requires Before(s, parts, flags, frameId, got) && got != Indices(|parts|)
    ensures var (s', out) := Feed(s, FragmentPacket(flags, i, |parts|, frameId, parts[i]), flags);
            if got + {i} == Indices(|parts|)
            then s' == IDLE && out == Ready(Concat(parts), flags)
            else out == NotReady && Holding(s', parts, flags, frameId, got + {i})
  {
    ParseFragmentPacket(flags, i, |parts|, frameId, parts[i]);
    var f := Fragment(flags, i, |parts|, frameId, parts[i]);
    FeedFragment(s, parts, f, got);
  }

  /** Storing one more part of the frame, or seeing one again. */
  lemma {:induction false} StorePart(s: Assembly, parts: seq<seq<byte>>, f: Fragment, got: set<nat>)
    requires Sized(s) && GoodParts(parts) && f.count == |parts| && f.index < |parts| && f.data == parts[f.index]
    requires Before(s, parts, f.flags, f.frameId, got) && got != Indices(|parts|)
    ensures Holding(Store(if Continues(s, f) then s else Begin(f), f), parts, f.flags, f.frameId, got + {f.index})
  {
    var s0 := if Continues(s, f) then s else Begin(f);
    assert Holding(s0, parts, f.flags, f.frameId, got);
    if f.index in got {
      assert got + {f.index} == got;
    }
  }

  lemma {:induction false} FeedFragment(s: Assembly, parts: seq<seq<byte>>, f: Fragment, got: set<nat>)
    requires Sized(s) && GoodParts(parts) && f.count == |parts| && f.index < |parts| && f.data == parts[f.index]
    requires Before(s, parts, f.flags, f.frameId, got) && got != Indices(|parts|)
    ensures var s1 := Store(if Continues(s, f) then s else Begin(f), f);
            if got + {f.index} == Indices(|parts|)
            then s1.received == s1.count && [] !in s1.parts && s1.parts == parts && s1.flags == f.flags
            else s1.received != s1.count && Holding(s1, parts, f.flags, f.frameId, got + {f.index})
  {
    StorePart(s, parts, f, got);
    SubsetOfIndices(got + {f.index}, |parts|);
    if got + {f.index} == Indices(|parts|) {
      var s1 := Store(if Continues(s, f) then s else Begin(f), f);
      assert forall i | 0 <= i < |parts| :: i in Indices(|parts|);
      assert s1.parts == parts;
    }
  }

  predicate AllBelow(order: seq<nat>, n: nat) {
    forall k | 0 <= k < |order| :: order[k] < n
  }

  function Select(packets: seq<seq<byte>>, order: seq<nat>): (r: seq<seq<byte>>)
    requires AllBelow(order, |packets|)
    ensures |r| == |order|
  {
    seq(|order|, k requires 0 <= k < |order| => packets[order[k]])
  }

  function Elements(order: seq<nat>): set<nat> {
    set i | i in order
  }

  function Outputs(n: nat, last: Output): seq<Output> {
    seq(n, _ => NotReady) + [last]
  }

  lemma {:induction false} PacketFlags(flags: byte, index: u16, count: u16, frameId: u32, data: seq<byte>)
    ensures VideoFlags(FragmentPacket(flags, index, count, frameId, data)) == flags
  {
    ParseFragmentPacket(flags, index, count, frameId, data);
  }

  lemma ThenHolding(s: Assembly, parts: seq<seq<byte>>, flags: byte, frameId: u32, got: set<nat>, i: nat)
    ensures Holding(s, parts, flags, frameId, got + {i}) ==> Before(s, parts, flags, frameId, got + {i})
  {}

  lemma ElementsSplit(order: seq<nat>)
    requires order != []
    ensures Elements(order) == {order[0]} + Elements(order[1..])
  {}

  /** Taking the first index moves it from the order into what has been got, as long as more are to come. */
  lemma {:induction false} TakeFirst(got: set<nat>, order: seq<nat>, n: nat)
    requires order != [] && got <= Indices(n) && AllBelow(order, n)
    requires got + Elements(order[..|order| - 1]) != Indices(n)
    ensures got != Indices(n)
    ensures got + {order[0]} <= Indices(n)
    ensures got + {order[0]} + Elements(order[1..]) == got + Elements(order)
    ensures |order| > 1 ==>
              && got + {order[0]} != Indices(n)
              && got + {order[0]} + Elements(order[1..][..|order| - 2]) != Indices(n)
  {
    ElementsSplit(order);
    var init := order[..|order| - 1];
    assert Elements(init) <= Indices(n);
    if |order| > 1 {
      ElementsSplit(init);
      assert init[1..] == order[1..][..|order| - 2];
      assert got + {order[0]} + Elements(order[1..][..|order| - 2]) == got + Elements(init);
    }
  }

  lemma FeedAllStep(s: Assembly, packets: seq<seq<byte>>)
    requires Sized(s) && packets != []
    ensures var (s1, out) := Feed(s, packets[0], VideoFlags(packets[0]));
            && FeedAll(s, packets).0 == FeedAll(s1, packets[1..]).0
            && FeedAll(s, packets).1 == [out] + FeedAll(s1, packets[1..]).1
  {}

  lemma {:induction false} FeedOrder(s: Assembly, parts: seq<seq<byte>>, flags: byte, frameId: u32,
      got: set<nat>, order: seq<nat>)
    requires Sized(s) && GoodParts(parts) && order != [] && AllBelow(order, |parts|)
    requires Before(s, parts, flags, frameId, got)
    requires got + Elements(order[..|order| - 1]) != Indices(|parts|) && got <= Indices(|parts|)
    ensures FeedAll(s, Select(Packets(flags, frameId, parts), order)).1
         == Outputs(|order| - 1, if got + Elements(order) == Indices(|parts|) then Ready(Concat(parts), flags) else NotReady)
    ensures got + Elements(order) == Indices(|parts|) ==>
              FeedAll(s, Select(Packets(flags, frameId, parts), order)).0 == IDLE
    decreases |order|
  {
    hide FragmentPacket, VideoFlags, Feed, FeedAll, Before, Holding, Concat, Elements, Indices, Select, Packets, Outputs;
    var i := order[0];
    var packets := Select(Packets(flags, frameId, parts), order);
    SelectFirst(flags, frameId, parts, order);
    TakeFirst(got, order, |parts|);
    PacketFlags(flags, i, |parts|, frameId, parts[i]);
    FeedPart(s, parts, flags, frameId, got, i);
    FeedAllStep(s, packets);
    var s1 := Feed(s, packets[0], flags).0;
    var last := if got + Elements(order) == Indices(|parts|) then Ready(Concat(parts), flags) else NotReady;
    OutputsFirst(|order| - 1, last);
    if |order| == 1 {
      FeedNothing(s1, packets[1..]);
      NothingMore(got + {i}, order[1..]);
    } else {
      ThenHolding(s1, parts, flags, frameId, got, i);
      FeedOrder(s1, parts, flags, frameId, got + {i}, order[1..]);
    }
  }

  lemma {:induction false} SelectFirst(flags: byte, frameId: u32, parts: seq<seq<byte>>, order: seq<nat>)
    requires GoodParts(parts) && order != [] && AllBelow(order, |parts|)
    ensures |Packets(flags, frameId, parts)| == |parts| && AllBelow(order[1..], |parts|)
    ensures var packets := Select(Packets(flags, frameId, parts), order);
            && packets != [] && packets[0] == FragmentPacket(flags, order[0], |parts|, frameId, parts[order[0]])
            && packets[1..] == Select(Packets(flags, frameId, parts), order[1..])
            && (|order| == 1 ==> packets[1..] == [])
  {
    hide FragmentPacket;
  }

  lemma OutputsFirst(n: nat, last: Output)
    ensures Outputs(n, last) == if n == 0 then [last] else [NotReady] + Outputs(n - 1, last)
  {}

  lemma FeedNothing(s: Assembly, packets: seq<seq<byte>>)
    requires Sized(s) && packets == []
    ensures FeedAll(s, packets) == (s, [])
  {}

  lemma NothingMore(got: set<nat>, order: seq<nat>)
    requires order == []
    ensures got + Elements(order) == got
  {}

  /**
    Any order, any duplicates: from a receiver that is not already assembling this frame, nothing comes
    out until the last missing fragment arrives, and then exactly the original payload and flags.
   */
  lemma {:induction false} AnyOrder(s: Assembly, payload: seq<byte>, frameId: u32, order: seq<nat>)
    requires FRAGMENT_DATA_SIZE < |payload| && |Split(payload)| < 0x1_0000
    requires Sized(s) && Elsewhere(s, frameId, |Split(payload)|)
    requires order != [] && AllBelow(order, |Split(payload)|)
    requires Elements(order[..|order| - 1]) != Indices(|Split(payload)|)
    ensures |MediaPackets(payload, frameId)| == |Split(payload)|
    ensures FeedAll(s, Select(MediaPackets(payload, frameId), order)).1
         == Outputs(|order| - 1,
                    if Elements(order) == Indices(|Split(payload)|) then Ready(payload, NalFlags(payload)) else NotReady)
    ensures Elements(order) == Indices(|Split(payload)|) ==>
              FeedAll(s, Select(MediaPackets(payload, frameId), order)).0 == IDLE
  {
    var parts := Split(payload);
    assert parts[..FragmentCount(payload)] == parts;
    assert {} + Elements(order) == Elements(order);
    assert {} + Elements(order[..|order| - 1]) == Elements(order[..|order| - 1]);
    FeedOrder(s, parts, NalFlags(payload), frameId, {}, order);
    SplitConcat(payload);
  }

  // A frame sent in order and without loss

  function InOrder(n: nat): (order: seq<nat>)
    ensures |order| == n && AllBelow(order, n)
  {
    seq(n, i => i)
  }

  lemma {:induction false} InOrderElements(n: nat)
    requires n > 0
    ensures Elements(InOrder(n)) == Indices(n)
    ensures Elements(InOrder(n)[..n - 1]) != Indices(n)
  {
    forall i: nat
      ensures i in Elements(InOrder(n)) <==> i in Indices(n)
    {
      if i < n {
        assert InOrder(n)[i] == i;
      }
    }
    assert n - 1 !in Elements(InOrder(n)[..n - 1]) && n - 1 in Indices(n);
  }

  lemma {:induction false} FeedInOrder(s: Assembly, parts: seq<seq<byte>>, flags: byte, frameId: u32)
    requires Sized(s) && GoodParts(parts) && Elsewhere(s, frameId, |parts|)
    ensures FeedAll(s, Packets(flags, frameId, parts)) == (IDLE, Outputs(|parts| - 1, Ready(Concat(parts), flags)))
  {
    hide Feed, FeedAll, Elements, Indices, FragmentPacket;
    var n := |parts|;
    InOrderElements(n);
    NothingGotYet(InOrder(n));
    NothingGotYet(InOrder(n)[..n - 1]);
    assert Select(Packets(flags, frameId, parts), InOrder(n)) == Packets(flags, frameId, parts);
    FeedOrder(s, parts, flags, frameId, {}, InOrder(n));
  }

  lemma NothingGotYet(order: seq<nat>)
    ensures {} + Elements(order) == Elements(order)
  {}

  /** The receiver stays quiet until the last packet and then hands over this payload with its own flags. */
  predicate Delivers(outs: seq<Output>, payload: seq<byte>) {
    outs != [] && outs == Outputs(|outs| - 1, Ready(payload, NalFlags(payload)))
  }

  /** A payload survives the trip: a short one does not look like a fragment, a long one has few enough fragments. */
  predicate Sendable(payload: seq<byte>) {
    if |payload| <= FRAGMENT_DATA_SIZE then !IsFragment(payload) else |Split(payload)| < 0x1_0000
  }

  lemma {:induction false} ShortPrefix(parts: seq<seq<byte>>, c: nat)
    requires c < |parts| && [] !in parts
    ensures |Concat(parts[..c])| < |Concat(parts)|
  {
    ConcatAppend(parts[..c], parts[c..]);
    assert parts[..c] + parts[c..] == parts;
    assert parts[c..][0] in parts && Concat(parts[c..]) == parts[c..][0] + Concat(parts[c..][1..]);
  }

  /** The receiver is not already assembling a frame of the id and count that the payload's packets claim. */
  predicate Unrelated(s: Assembly, payload: seq<byte>, frameId: u32) {
    if |payload| <= FRAGMENT_DATA_SIZE then IsFragment(payload) ==> !Continues(s, ParseFragment(payload))
    else Elsewhere(s, frameId, FragmentCount(payload))
  }

  /**
    The sender's packets for one payload, received in order by a receiver that is idle or busy with
    another frame, deliver that payload exactly when it is `Sendable`: the 16-bit fragment count wraps at
    65536 fragments, and an unfragmented payload that starts like a fragment is taken for one.
   */
  lemma {:induction false} DeliveredIffSendable(s: Assembly, payload: seq<byte>, frameId: u32)
    requires Sized(s) && Unrelated(s, payload, frameId) && payload != []
    ensures Delivers(FeedAll(s, MediaPackets(payload, frameId)).1, payload) <==> Sendable(payload)
  {
    if |payload| <= FRAGMENT_DATA_SIZE {
      DeliveredShort(s, payload);
    } else {
      DeliveredLong(s, payload, frameId);
    }
  }

  /** Having delivered it, a receiver that was not assembling anything is not assembling anything. */
  lemma {:induction false} RestsAfter(s: Assembly, payload: seq<byte>, frameId: u32)
    requires Sized(s) && !s.active && payload != [] && Sendable(payload)
    ensures !FeedAll(s, MediaPackets(payload, frameId)).0.active
  {
    hide FeedAll, Feed, Concat, FragmentPacket;
    if |payload| <= FRAGMENT_DATA_SIZE {
      FeedAllStep(s, [payload]);
      WholeAtOnce(s, payload, VideoFlags(payload));
      FeedNothing(s, [payload][1..]);
    } else {
      var all := Split(payload);
      assert [] !in all && all[..FragmentCount(payload)] == all;
      FeedInOrder(s, all, NalFlags(payload), frameId);
    }
  }

  lemma WholeAtOnce(s: Assembly, payload: seq<byte>, flags: byte)
    requires Sized(s) && !IsFragment(payload)
    ensures Feed(s, payload, flags) == (s, Ready(payload, flags))
  {}

  lemma {:induction false} DeliveredShort(s: Assembly, payload: seq<byte>)
    requires Sized(s) && payload != [] && (IsFragment(payload) ==> !Continues(s, ParseFragment(payload)))
    ensures Delivers(FeedAll(s, [payload]).1, payload) <==> !IsFragment(payload)
  {
    var (s1, out) := Feed(s, payload, VideoFlags(payload));
    FeedAllStep(s, [payload]);
    FeedNothing(s1, [payload][1..]);
    assert FeedAll(s, [payload]).1 == [out];
    assert Outputs(0, Ready(payload, NalFlags(payload))) == [Ready(payload, NalFlags(payload))];
    if IsFragment(payload) {
      FalseFragment(s, payload);
    }
  }

  lemma {:induction false} FalseFragment(s: Assembly, payload: seq<byte>)
    requires Sized(s) && IsFragment(payload) && !Continues(s, ParseFragment(payload))
    ensures var out := Feed(s, payload, VideoFlags(payload)).1; out.Ready? ==> |out.payload| < |payload|
  {
    var f := ParseFragment(payload);
    if f.count == 1 && f.index < f.count {
      var s1 := Store(Begin(f), f);
      assert s1.parts == [f.data];
      assert Concat(s1.parts) == f.data + Concat(s1.parts[1..]);
    }
  }

  lemma {:induction false} DeliveredLong(s: Assembly, payload: seq<byte>, frameId: u32)
    requires Sized(s) && |payload| > FRAGMENT_DATA_SIZE && Elsewhere(s, frameId, FragmentCount(payload))
    ensures Delivers(FeedAll(s, MediaPackets(payload, frameId)).1, payload) <==> |Split(payload)| < 0x1_0000
  {
    hide FeedAll, Concat, FragmentPacket;
    var all := Split(payload);
    assert [] !in all;
    var c := FragmentCount(payload);
    SplitConcat(payload);
    if c == 0 {
      FeedNothing(s, MediaPackets(payload, frameId));
    } else {
      FeedInOrder(s, all[..c], NalFlags(payload), frameId);
      var outs := Outputs(c - 1, Ready(Concat(all[..c]), NalFlags(payload)));
      assert outs[c - 1] == Ready(Concat(all[..c]), NalFlags(payload));
      if c < |all| {
        ShortPrefix(all, c);
      } else {
        assert all[..c] == all;
      }
    }
  }

  // Any sequence of fragments at all

  /** The data of the first fragment with this index that carried any, or nothing. */
  function FirstData(history: seq<Fragment>, index: nat): seq<byte> {
    if history == [] then []
    else if history[0].index == index && history[0].data != [] then history[0].data
    else FirstData(history[1..], index)
  }

  function FirstParts(history: seq<Fragment>, count: nat): (parts: seq<seq<byte>>)
    ensures |parts| == count
  {
    seq(count, i requires 0 <= i < count => FirstData(history, i))
  }

  lemma {:induction false} FirstDataSnoc(history: seq<Fragment>, f: Fragment, index: nat)
    ensures FirstData(history + [f], index)
         == if FirstData(history, index) != [] then FirstData(history, index)
            else if f.index == index then f.data else []
  {
    if history != [] {
      assert (history + [f])[1..] == history[1..] + [f];
      FirstDataSnoc(history[1..], f, index);
    } else {
      assert (history + [f])[1..] == [];
    }
  }

  function TotalSize(parts: seq<seq<byte>>): nat {
    if parts == [] then 0 else |parts[0]| + TotalSize(parts[1..])
  }

  function NonEmpty(parts: seq<seq<byte>>): nat {
    if parts == [] then 0 else (if parts[0] != [] then 1 else 0) + NonEmpty(parts[1..])
  }

  lemma {:induction false} TotalsAfterUpdate(parts: seq<seq<byte>>, i: nat, data: seq<byte>)
    requires i < |parts| && parts[i] == []
    ensures TotalSize(parts[i := data]) == TotalSize(parts) + |data|
    ensures NonEmpty(parts[i := data]) == NonEmpty(parts) + if data != [] then 1 else 0
  {
    if i > 0 {
      assert parts[i := data][1..] == parts[1..][i - 1 := data];
      TotalsAfterUpdate(parts[1..], i - 1, data);
    } else {
      assert parts[i := data][1..] == parts[1..];
    }
  }

  lemma {:induction false} TotalsOfNothing(n: nat)
    ensures TotalSize(seq<seq<byte>>(n, _ => [])) == 0 && NonEmpty(seq<seq<byte>>(n, _ => [])) == 0
  {
    if n > 0 {
      assert seq<seq<byte>>(n, _ => [])[1..] == seq<seq<byte>>(n - 1, _ => []);
      TotalsOfNothing(n - 1);
    }
  }

  /**
    The state of an assembly against the fragments received since it began: all of one frame id and
    count; every stored part is the first data its index received; sizes add up; and, while active,
    fewer fragments have been counted than the frame has.
   */
  ghost predicate Tracks(s: Assembly, history: seq<Fragment>) {
    && Sized(s)
    && (!s.active ==> s == IDLE && history == [])
    && (s.active ==>
          && history != [] && s.flags == history[0].flags
          && (forall f | f in history :: f.frameId == s.frameId && f.count == s.count)
          && s.received < s.count
          && NonEmpty(s.parts) <= s.received
          && s.totalSize == TotalSize(s.parts)
          && forall i | 0 <= i < |s.parts| :: s.parts[i] == FirstData(history, i))
  }

  /** The fragments since assembly began, once this payload has been fed. */
  function NextHistory(s: Assembly, history: seq<Fragment>, payload: seq<byte>): seq<Fragment>
    requires Sized(s)
  {
    if !IsFragment(payload) then history
    else if !Feed(s, payload, 0).0.active then []
    else Extended(s, history, ParseFragment(payload))
  }

  function Extended(s: Assembly, history: seq<Fragment>, f: Fragment): seq<Fragment> {
    if Continues(s, f) then history + [f] else [f]
  }

  /** The assembly just after a valid fragment was stored, before the completion test. */
  ghost predicate Stored(s: Assembly, history: seq<Fragment>) {
    && Sized(s) && s.active && s.received <= s.count
    && history != [] && s.flags == history[0].flags
    && (forall f | f in history :: f.frameId == s.frameId && f.count == s.count)
    && NonEmpty(s.parts) <= s.received
    && s.totalSize == TotalSize(s.parts)
    && forall i | 0 <= i < |s.parts| :: s.parts[i] == FirstData(history, i)
  }

  lemma {:induction false} StoreTracks(s: Assembly, history: seq<Fragment>, f: Fragment)
    requires Tracks(s, history) && f.index < f.count
    ensures Stored(Store(if Continues(s, f) then s else Begin(f), f), Extended(s, history, f))
  {
    var s0, h0 := if Continues(s, f) then s else Begin(f), if Continues(s, f) then history else [];
    TotalsOfNothing(f.count);
    if s0.parts[f.index] == [] {
      TotalsAfterUpdate(s0.parts, f.index, f.data);
    }
    forall i | 0 <= i < f.count
      ensures FirstData(h0 + [f], i) == Store(s0, f).parts[i]
    {
      FirstDataSnoc(h0, f, i);
    }
    assert Extended(s, history, f) == h0 + [f];
  }

  lemma {:induction false} FeedTracks(s: Assembly, history: seq<Fragment>, payload: seq<byte>, flags: byte)
    requires Tracks(s, history)
    ensures Tracks(Feed(s, payload, flags).0, NextHistory(s, history, payload))
  {
    if IsFragment(payload) {
      var f := ParseFragment(payload);
      if f.index < f.count {
        StoreTracks(s, history, f);
      }
    }
  }

  /**
    Whatever was lost, reordered, duplicated or mixed in: a frame that comes out is the in-order
    concatenation of the first data received for each of its indices, none of them missing, with the
    flags of the fragment that began it.
   */
  lemma {:induction false} EmittedFrame(s: Assembly, history: seq<Fragment>, payload: seq<byte>, flags: byte)
    requires Tracks(s, history) && IsFragment(payload) && Feed(s, payload, flags).1.Ready?
    ensures var h := Extended(s, history, ParseFragment(payload));
            var n := ParseFragment(payload).count as nat;
            && Feed(s, payload, flags).1 == Ready(Concat(FirstParts(h, n)), h[0].flags)
            && [] !in FirstParts(h, n)
  {
    var f := ParseFragment(payload);
    StoreTracks(s, history, f);
    var s1 := Store(if Continues(s, f) then s else Begin(f), f);
    var h := Extended(s, history, f);
    assert s1.parts == FirstParts(h, f.count);
  }

  function RunHistory(s: Assembly, history: seq<Fragment>, packets: seq<seq<byte>>): seq<Fragment>
    requires Sized(s)
    decreases |packets|
  {
    if packets == [] then history
    else RunHistory(Feed(s, packets[0], VideoFlags(packets[0])).0, NextHistory(s, history, packets[0]), packets[1..])
  }

  /** The assembly matches its history after any sequence of payloads. */
  lemma {:induction false} RunTracks(s: Assembly, history: seq<Fragment>, packets: seq<seq<byte>>)
    requires Tracks(s, history)
    ensures Tracks(FeedAll(s, packets).0, RunHistory(s, history, packets))
    decreases |packets|
  {
    if packets != [] {
      FeedTracks(s, history, packets[0], VideoFlags(packets[0]));
      RunTracks(Feed(s, packets[0], VideoFlags(packets[0])).0, NextHistory(s, history, packets[0]), packets[1..]);
    }
  }
}
