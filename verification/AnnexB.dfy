/**
  The byte stream format of Annex B of ITU-T H.264: the player joins NAL units with start codes
  (gateway_client/gateway_client.cpp), the sender cuts a bitstream into them (wsh264/app/wsh264.cpp).
 */
module AnnexB {
  import opened Bytes

  /** The sender holds the size of a bitstream in an `int`. */
  type Bitstream = b: seq<byte> | |b| < 0x8000_0000

  const START_CODE: seq<byte> := [0, 0, 0, 1]

  function Append(packet: seq<byte>, nal: seq<byte>): seq<byte> {
    if nal == [] then packet else packet + START_CODE + nal
  }

  function Join(nals: seq<seq<byte>>): seq<byte> {
    if nals == [] then [] else Append([], nals[0]) + Join(nals[1..])
  }

  /** A three-byte start code ends at i. */
  predicate CodeEndsAt(b: seq<byte>, i: int) {
    2 <= i < |b| && b[i] == 1 && b[i - 1] == 0 && b[i - 2] == 0
  }

  predicate NoStartCode(nal: seq<byte>) {
    forall i | 0 <= i < |nal| :: !CodeEndsAt(nal, i)
  }

  datatype Chunk = Chunk(start: nat, end: nat)

  /** The first start code that ends at or after i, or the end of the stream. */
  function FirstCode(b: seq<byte>, i: nat): (r: nat)
    requires i <= |b|
    ensures i <= r <= |b|
    ensures r < |b| ==> CodeEndsAt(b, r)
    ensures forall j | i <= j < r :: !CodeEndsAt(b, j)
    decreases |b| - i
  {
    if i == |b| || CodeEndsAt(b, i) then i else FirstCode(b, i + 1)
  }

  lemma FirstCodeIs(b: seq<byte>, i: nat, r: nat)
    requires i <= r <= |b| && (r < |b| ==> CodeEndsAt(b, r))
    requires forall j | i <= j < r :: !CodeEndsAt(b, j)
    ensures FirstCode(b, i) == r
  {}

  /** Where the chunk that starts at s ends: before the next start code, of four bytes if a zero precedes it. */
  function ChunkEnd(b: seq<byte>, s: nat): (e: nat)
    requires 3 <= s <= |b| && CodeEndsAt(b, s - 1)
    ensures s <= e <= |b|
  {
    var i := FirstCode(b, s);
    if i == |b| then |b|
    else if i - 3 >= s && b[i - 3] == 0 then i - 3
    else i - 2
  }

  /** The next chunk when searching from `from`. */
  function NextChunk(b: seq<byte>, from: nat): (c: Option<Chunk>)
    requires from <= |b|
    ensures c.Some? ==> from + 3 <= c.value.start <= c.value.end <= |b| && CodeEndsAt(b, c.value.start - 1)
  {
    if from + 2 > |b| then None
    else
      var i := FirstCode(b, from + 2);
      if i == |b| then None else Some(Chunk(i + 1, ChunkEnd(b, i + 1)))
  }

  function Chunks(b: seq<byte>, from: nat): seq<Chunk>
    requires from <= |b|
    decreases |b| - from
  {
    var c := NextChunk(b, from);
    if c.None? then [] else [c.value] + Chunks(b, c.value.end)
  }

  // The loops of the program

  method AnnexbAppend(packet: seq<byte>, nal: seq<byte>) returns (r: seq<byte>)
    ensures r == Append(packet, nal)
  {
    if nal == [] {
      return packet;
    }
    r := packet + START_CODE;
    r := r + nal;
  }

  /** The size of the chunk at s; the search looks back over the two bytes before it. */
  method CheckSize(b: Bitstream, s: nat) returns (size: nat)
    requires 3 <= s <= |b| && CodeEndsAt(b, s - 1)
    ensures s + size == ChunkEnd(b, s)
  {
    var i := 0;
    while i < |b| - s
      invariant 0 <= i <= |b| - s
      invariant FirstCode(b, s) == FirstCode(b, s + i)
    {
      if b[s + i] == 1 && b[s + i - 1] == 0 && b[s + i - 2] == 0 {
        if i - 3 >= 0 && b[s + i - 3] == 0 {
          return i - 3;
        }
        return i - 2;
      }
      i := i + 1;
    }
    return |b| - s;
  }

  method NextChunkOf(b: Bitstream, from: nat) returns (found: bool, start: nat, size: nat)
    requires from <= |b|
    ensures found <==> NextChunk(b, from).Some?
    ensures found ==> NextChunk(b, from) == Some(Chunk(start, start + size))
  {
    found, start, size := false, 0, 0;
    var i := 2;
    while i < |b| - from
      invariant 2 <= i && (from + i <= |b| || i == 2)
      invariant from + 2 <= |b| ==> FirstCode(b, from + 2) == FirstCode(b, from + i)
    {
      if b[from + i] == 1 && b[from + i - 1] == 0 && b[from + i - 2] == 0 {
        i := i + 1;
        size := CheckSize(b, from + i);
        return true, from + i, size;
      }
      i := i + 1;
    }
  }

  /** One pass of the streaming loop over the bitstream. */
  method SplitBitstream(b: Bitstream) returns (chunks: seq<Chunk>)
    ensures chunks == Chunks(b, 0)
  {
    hide FirstCode, ChunkEnd, NextChunk;
    chunks := [];
    var from := 0;
    while true
      invariant from <= |b|
      invariant chunks + Chunks(b, from) == Chunks(b, 0)
      decreases |b| - from
    {
      var found, start, size := NextChunkOf(b, from);
      if !found {
        return;
      }
      var c := Chunk(start, start + size);
      Associative(chunks, [c], Chunks(b, c.end));
      chunks := chunks + [c];
      from := start + size;
    }
  }

  // What the chunks are

  function Slices(b: seq<byte>, chunks: seq<Chunk>): (nals: seq<seq<byte>>)
    requires forall c | c in chunks :: c.start <= c.end <= |b|
    ensures |nals| == |chunks|
  {
    seq(|chunks|, i requires 0 <= i < |chunks| => b[chunks[i].start..chunks[i].end])
  }

  lemma {:induction false} ChunksInside(b: seq<byte>, from: nat)
    requires from <= |b|
    ensures forall c | c in Chunks(b, from) :: from + 3 <= c.start <= c.end <= |b|
    decreases |b| - from
  {
    var c := NextChunk(b, from);
    if c.Some? {
      ChunksInside(b, c.value.end);
    }
  }

  lemma {:induction false} CleanSlice(b: seq<byte>, s: nat, e: nat)
    requires s <= e <= |b| && forall j | s <= j < e :: !CodeEndsAt(b, j)
    ensures NoStartCode(b[s..e])
  {
    forall i | 0 <= i < e - s
      ensures !CodeEndsAt(b[s..e], i)
    {
      assert CodeEndsAt(b[s..e], i) ==> CodeEndsAt(b, s + i);
    }
  }

  /** The i-th chunk: at least a start code past where the search for it began, and free of start codes. */
  ghost predicate InPlace(b: seq<byte>, cs: seq<Chunk>, from: nat, i: nat)
    requires i < |cs|
  {
    && (if i == 0 then from else cs[i - 1].end) + 3 <= cs[i].start <= cs[i].end <= |b|
    && CodeEndsAt(b, cs[i].start - 1)
    && NoStartCode(b[cs[i].start..cs[i].end])
  }

  /**
    On any bytes at all the chunks come in order, each at least a start code after the end of the one
    before, and none contains a start code.
   */
  lemma {:induction false} ChunksOrderedAndClean(b: seq<byte>, from: nat)
    requires from <= |b|
    ensures forall i | 0 <= i < |Chunks(b, from)| :: InPlace(b, Chunks(b, from), from, i)
    decreases |b| - from
  {
    var c := NextChunk(b, from);
    if c.Some? {
      var s, e := c.value.start, c.value.end;
      ChunksOrderedAndClean(b, e);
      CleanSlice(b, s, e);
      var cs, rest := Chunks(b, from), Chunks(b, e);
      forall i | 0 <= i < |cs|
        ensures InPlace(b, cs, from, i)
      {
        if i > 0 {
          assert InPlace(b, rest, e, i - 1);
          assert cs[i] == rest[i - 1] && cs[i - 1].end == if i == 1 then e else rest[i - 2].end;
        }
      }
    }
  }

  /**
    Up to the i-th chunk there is just a start code from the end of the chunk before: of four bytes, or of three
    and then the chunk before does not end in a zero.
   */
  ghost predicate CodeBefore(b: seq<byte>, cs: seq<Chunk>, i: nat)
    requires 0 < i < |cs|
  {
    var c, d := cs[i - 1], cs[i];
    && c.start <= c.end <= d.start <= |b|
    && (|| b[c.end..d.start] == [0, 0, 0, 1]
        || (b[c.end..d.start] == [0, 0, 1] && (c.end > c.start ==> b[c.end - 1] != 0)))
  }

  lemma {:induction false} CodeAfter(b: seq<byte>, from: nat)
    requires from <= |b| && NextChunk(b, from).Some?
    ensures var c := NextChunk(b, from).value;
            match NextChunk(b, c.end)
            case None => c.end == |b|
            case Some(d) => CodeBefore(b, [c, d], 1)
  {
    var s := FirstCode(b, from + 2) + 1;
    var i := FirstCode(b, s);
    if i < |b| {
      FirstCodeIs(b, ChunkEnd(b, s) + 2, i);
    }
  }

  /** On any bytes, nothing but start codes lies between the chunks, and the last one goes to the end. */
  lemma {:induction false} ChunksCover(b: seq<byte>, from: nat)
    requires from <= |b|
    ensures forall i: nat | 0 < i < |Chunks(b, from)| :: CodeBefore(b, Chunks(b, from), i)
    ensures var cs := Chunks(b, from); cs != [] ==> cs[|cs| - 1].end == |b|
    decreases |b| - from
  {
    hide CodeEndsAt, NextChunk;
    var c := NextChunk(b, from);
    if c.Some? {
      CodeAfter(b, from);
      ChunksCover(b, c.value.end);
      var cs, rest := Chunks(b, from), Chunks(b, c.value.end);
      forall i: nat | 0 < i < |cs|
        ensures CodeBefore(b, cs, i)
      {
        if i > 1 {
          assert CodeBefore(b, rest, i - 1);
          assert cs[i] == rest[i - 1] && cs[i - 1] == rest[i - 2];
        }
      }
    }
  }

  /** The first chunk starts behind the first start code, and there is none exactly when there is no start code. */
  lemma {:induction false} FirstChunkStart(b: seq<byte>)
    ensures Chunks(b, 0) == [] <==> NoStartCode(b)
    ensures var cs := Chunks(b, 0);
            cs != [] ==> 3 <= cs[0].start <= |b| && CodeEndsAt(b, cs[0].start - 1)
                         && forall j | 0 <= j < cs[0].start - 1 :: !CodeEndsAt(b, j)
  {
    hide ChunkEnd;
    if |b| >= 2 {
      var i := FirstCode(b, 2);
      assert !CodeEndsAt(b, 0) && !CodeEndsAt(b, 1);
    }
  }

  lemma JoinNothing()
    ensures Join([]) == []
  {}

  lemma {:induction false} JoinStep(nals: seq<seq<byte>>)
    requires nals != [] && nals[0] != []
    ensures Join(nals) == START_CODE + nals[0] + Join(nals[1..])
  {
    assert [] + START_CODE == START_CODE;
  }

  /** No start code ends inside a unit that holds none, when the unit follows the end of a start code. */
  lemma {:induction false} NoCodeInUnit(b: seq<byte>, s: nat, nal: seq<byte>)
    requires 1 <= s && s + |nal| <= |b| && b[s - 1] == 1 && b[s..s + |nal|] == nal && NoStartCode(nal)
    ensures forall j | s <= j < s + |nal| :: !CodeEndsAt(b, j)
  {
    forall j | s <= j < s + |nal|
      ensures !CodeEndsAt(b, j)
    {
      if j - 2 >= s {
        assert !CodeEndsAt(nal, j - s);
        assert b[j] == nal[j - s] && b[j - 1] == nal[j - 1 - s] && b[j - 2] == nal[j - 2 - s];
      }
    }
  }

  /** With the joined units standing at `from`, the search finds the first of them whole. */
  lemma {:induction false} FirstUnit(b: seq<byte>, from: nat, nal: seq<byte>, rest: seq<seq<byte>>)
    requires from <= |b| && b[from..] == START_CODE + nal + Join(rest)
    requires nal != [] && NoStartCode(nal) && [] !in rest
    ensures NextChunk(b, from) == Some(Chunk(from + 4, from + 4 + |nal|))
  {
    hide Join, NoStartCode, FirstCode;
    var s := from + 4;
    var tail := b[from..];
    assert forall i | 0 <= i < |tail| :: b[from + i] == tail[i];
    assert b[from] == 0 && b[from + 1] == 0 && b[from + 2] == 0 && b[from + 3] == 1;
    FirstCodeIs(b, from + 2, from + 3);
    var t := s + |nal|;
    assert b[s..t] == tail[4..4 + |nal|] == nal;
    NoCodeInUnit(b, s, nal);
    if rest == [] {
      JoinNothing();
      FirstCodeIs(b, s, t);
    } else {
      assert rest[0] in rest;
      JoinStep(rest);
      assert tail[4 + |nal|..] == Join(rest);
      assert b[t] == 0 && b[t + 1] == 0 && b[t + 2] == 0 && b[t + 3] == 1;
      FirstCodeIs(b, s, t + 3);
    }
  }

  lemma NoChunksLeft(b: seq<byte>, from: nat)
    requires from <= |b| && b[from..] == Join([])
    ensures Chunks(b, from) == []
  {}

  lemma {:induction false} JoinThenChunksFrom(b: seq<byte>, from: nat, nals: seq<seq<byte>>)
    requires from <= |b| && b[from..] == Join(nals)
    requires forall n | n in nals :: n != [] && NoStartCode(n)
    ensures forall c | c in Chunks(b, from) :: c.start <= c.end <= |b|
    ensures Slices(b, Chunks(b, from)) == nals
    decreases |nals|
  {
    hide Chunks, Join, NoStartCode;
    ChunksInside(b, from);
    if nals == [] {
      NoChunksLeft(b, from);
    } else {
      assert nals[0] in nals && forall n | n in nals[1..] :: n in nals;
      UnitThenRest(b, from, nals);
      var e := from + 4 + |nals[0]|;
      JoinThenChunksFrom(b, e, nals[1..]);
      SlicesCons(b, Chunk(from + 4, e), Chunks(b, e));
    }
  }

  lemma SlicesCons(b: seq<byte>, c: Chunk, cs: seq<Chunk>)
    requires c.start <= c.end <= |b| && forall d | d in cs :: d.start <= d.end <= |b|
    ensures forall d | d in [c] + cs :: d.start <= d.end <= |b|
    ensures Slices(b, [c] + cs) == [b[c.start..c.end]] + Slices(b, cs)
  {}

  lemma {:induction false} UnitThenRest(b: seq<byte>, from: nat, nals: seq<seq<byte>>)
    requires from <= |b| && b[from..] == Join(nals) && nals != []
    requires forall n | n in nals :: n != [] && NoStartCode(n)
    ensures var e := from + 4 + |nals[0]|;
            && e <= |b| && b[from + 4..e] == nals[0] && b[e..] == Join(nals[1..])
            && Chunks(b, from) == [Chunk(from + 4, e)] + Chunks(b, e)
  {
    hide Join, NoStartCode, NextChunk, CodeEndsAt;
    assert nals[0] in nals && forall n | n in nals[1..] :: n in nals;
    JoinStep(nals);
    FirstUnit(b, from, nals[0], nals[1..]);
    MiddleOf(b, from, START_CODE, nals[0], Join(nals[1..]));
  }

  lemma {:induction false} MiddleOf(b: seq<byte>, from: nat, x: seq<byte>, y: seq<byte>, z: seq<byte>)
    requires from <= |b| && b[from..] == x + y + z
    ensures from + |x| + |y| <= |b| && b[from + |x|..from + |x| + |y|] == y && b[from + |x| + |y|..] == z
  {
    var t := b[from..];
    assert t[|x|..|x| + |y|] == y && t[|x| + |y|..] == z;
  }

  /** Joining NAL units and cutting the result gives the same units, when none is empty or holds a start code. */
  lemma {:induction false} JoinThenChunks(nals: seq<seq<byte>>)
    requires forall n | n in nals :: n != [] && NoStartCode(n)
    ensures forall c | c in Chunks(Join(nals), 0) :: c.start <= c.end <= |Join(nals)|
    ensures Slices(Join(nals), Chunks(Join(nals), 0)) == nals
  {
    assert Join(nals)[0..] == Join(nals);
    JoinThenChunksFrom(Join(nals), 0, nals);
  }

  /** Units that are not empty come back exactly when none of them holds a start code. */
  lemma {:induction false} JoinedComesApart(nals: seq<seq<byte>>)
    requires [] !in nals
    ensures forall c | c in Chunks(Join(nals), 0) :: c.start <= c.end <= |Join(nals)|
    ensures Slices(Join(nals), Chunks(Join(nals), 0)) == nals <==> forall n | n in nals :: NoStartCode(n)
  {
    hide NoStartCode, Join, Chunks;
    var b := Join(nals);
    ChunksInside(b, 0);
    if forall n | n in nals :: NoStartCode(n) {
      JoinThenChunks(nals);
    }
    if Slices(b, Chunks(b, 0)) == nals {
      ChunksOrderedAndClean(b, 0);
      forall i | 0 <= i < |nals|
        ensures NoStartCode(nals[i])
      {
        assert InPlace(b, Chunks(b, 0), 0, i);
      }
    }
  }
}
