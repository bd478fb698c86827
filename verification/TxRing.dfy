/** The 128 KiB transmit ring (ameba_gateway/example_gateway_ameba.c): a byte queue with peek and later consume. */
module TxRing {
  import opened Bytes

  const RING_SIZE: nat := 128 * 1024

  function Wrap(i: nat): nat {
    if i < RING_SIZE then i else i - RING_SIZE
  }

  /** How far the ring runs from `pos` to `j`. */
  function Distance(pos: nat, j: nat): int {
    if pos <= j then j - pos else j + RING_SIZE - pos
  }

  /** The bytes from `tail` on, oldest first. */
  ghost function Contents(ring: seq<byte>, tail: nat, count: nat): (q: seq<byte>)
    requires |ring| == RING_SIZE && tail < RING_SIZE && count <= RING_SIZE
    ensures |q| == count
  {
    seq(count, i requires 0 <= i < count => ring[Wrap(tail + i)])
  }

  /** The ring after `data` was copied in at `pos`, continuing at the start of the array. */
  ghost function Written(ring: seq<byte>, pos: nat, data: seq<byte>): (r: seq<byte>)
    requires |ring| == RING_SIZE && pos < RING_SIZE && |data| <= RING_SIZE
    ensures |r| == RING_SIZE
  {
    seq(RING_SIZE, j requires 0 <= j < RING_SIZE =>
      if 0 <= Distance(pos, j) < |data| then data[Distance(pos, j)] else ring[j])
  }

  /** Writing at the head appends: the bytes already queued stay where they are. */
  lemma {:induction false} WriteAppends(ring: seq<byte>, tail: nat, count: nat, data: seq<byte>)
    requires |ring| == RING_SIZE && tail < RING_SIZE && count + |data| <= RING_SIZE
    requires Wrap(tail + count) < RING_SIZE
    ensures Contents(Written(ring, Wrap(tail + count), data), tail, count + |data|)
         == Contents(ring, tail, count) + data
  {
    var pos := Wrap(tail + count);
    forall k | 0 <= k < count + |data|
      ensures Written(ring, pos, data)[Wrap(tail + k)] == (Contents(ring, tail, count) + data)[k]
    {
      if k < count {
        assert Distance(pos, Wrap(tail + k)) == RING_SIZE + k - count;
      } else if k - count < RING_SIZE {
        assert Distance(pos, Wrap(tail + k)) == k - count;
      }
    }
  }

  /** Advancing the tail drops the oldest bytes. */
  lemma {:induction false} AdvanceDrops(ring: seq<byte>, tail: nat, count: nat, n: nat)
    requires |ring| == RING_SIZE && tail < RING_SIZE && n <= count <= RING_SIZE
    requires Wrap(tail + n) < RING_SIZE
    ensures Contents(ring, Wrap(tail + n), count - n) == Contents(ring, tail, count)[n..]
  {
    forall k | 0 <= k < count - n
      ensures Contents(ring, Wrap(tail + n), count - n)[k] == Contents(ring, tail, count)[n..][k]
    {
      assert Wrap(Wrap(tail + n) + k) == Wrap(tail + (n + k));
    }
  }

  /** The oldest bytes lie in the array in at most two runs. */
  lemma {:induction false} OldestInTwoRuns(ring: seq<byte>, tail: nat, count: nat, len: nat)
    requires |ring| == RING_SIZE && tail < RING_SIZE && len <= count <= RING_SIZE
    ensures var first := Min(len, RING_SIZE - tail);
            Contents(ring, tail, count)[..len] == ring[tail..tail + first] + ring[..len - first]
  {
    var first := Min(len, RING_SIZE - tail);
    var a, b := ring[tail..tail + first], ring[..len - first];
    forall k | 0 <= k < len
      ensures Contents(ring, tail, count)[k] == (a + b)[k]
    {
      if k < |a| {
        assert Wrap(tail + k) == tail + k;
        assert (a + b)[k] == ring[tail + k];
      } else {
        assert (a + b)[k] == b[k - |a|] == ring[Wrap(tail + k)];
      }
    }
  }

  lemma WrapIsModulo(i: nat)
    requires i < 2 * RING_SIZE
    ensures Wrap(i) == i % RING_SIZE
  {}

  /** The head does not move when the tail does. */
  lemma {:induction false} HeadStays(tail: nat, count: nat, n: nat)
    requires tail < RING_SIZE && n <= count <= RING_SIZE
    ensures ((tail + n) % RING_SIZE + (count - n)) % RING_SIZE == (tail + count) % RING_SIZE
  {
    if tail + n >= RING_SIZE {
      assert (tail + n) % RING_SIZE == tail + n - RING_SIZE;
    }
  }

  class Ring {
    const ring: array<byte>
    var head: nat
    var tail: nat
    var count: nat

    ghost var queue: seq<byte>    // what the ring holds, oldest first

    ghost predicate Valid()
      reads this, ring
    {
      && ring.Length == RING_SIZE
      && head < RING_SIZE && tail < RING_SIZE && count <= RING_SIZE
      && head == (tail + count) % RING_SIZE
      && queue == Contents(ring[..], tail, count)
    }

    constructor ()
      ensures Valid() && fresh(ring) && queue == []
    {
      ring := new byte[RING_SIZE](_ => 0);
      head, tail, count, queue := 0, 0, 0, [];
    }

    method Reset()
      requires Valid()
      modifies this
      ensures Valid() && queue == []
    {
      head, tail, count, queue := 0, 0, 0, [];
    }

    method Write(pos: nat, data: seq<byte>)
      requires ring.Length == RING_SIZE && pos < RING_SIZE && |data| <= RING_SIZE
      modifies ring
      ensures ring[..] == Written(old(ring[..]), pos, data)
    {
      var firstPart := |data|;
      if firstPart > RING_SIZE - pos {
        firstPart := RING_SIZE - pos;
      }
      ghost var before := ring[..];
      CopyInto(ring, pos, data[..firstPart]);
      if |data| - firstPart > 0 {
        CopyInto(ring, 0, data[firstPart..]);
      }
      assert forall j | 0 <= j < RING_SIZE :: ring[j] == Written(before, pos, data)[j];
    }

    /** All of prefix and payload is appended, or, when they do not fit together, nothing. */
    method EnqueuePacket(prefix: seq<byte>, payload: seq<byte>) returns (rc: int)
      requires Valid()
      modifies this`head, this`count, this`queue, ring
      ensures Valid() && (rc == 0 || rc == -1)
      ensures rc == 0 <==> |prefix| + |payload| + |old(queue)| <= RING_SIZE
      ensures queue == if rc == 0 then old(queue) + (prefix + payload) else old(queue)
    {
      var total := |prefix| + |payload|;
      if total == 0 {
        assert queue + (prefix + payload) == queue;
        return 0;
      }
      if total > RING_SIZE - count {
        return -1;
      }
      ghost var q := queue;
      var pos := head;
      if |prefix| > 0 {
        pos := Append(prefix);
      }
      assert queue == q + prefix;
      Associative(q, prefix, payload);
      if |payload| > 0 {
        pos := Append(payload);
      }
      assert queue == q + prefix + payload;
      return 0;
    }

    /** One copy at the head of the ring, and the head moved past it. */
    method Append(data: seq<byte>) returns (pos: nat)
      requires Valid() && 0 < |data| <= RING_SIZE - count
      modifies this`head, this`count, this`queue, ring
      ensures Valid() && pos == head
      ensures queue == old(queue) + data
    {
      hide Contents, Written;
      WrapIsModulo(tail + count);
      WrapIsModulo(head + |data|);
      WrapIsModulo(tail + (count + |data|));
      WriteAppends(ring[..], tail, count, data);
      Write(head, data);
      head := (head + |data|) % RING_SIZE;
      count := count + |data|;
      queue := queue + data;
      return head;
    }

    /** The oldest bytes are copied out; the queue keeps them until `ConsumeChunk`. */
    method PeekChunk(dest: array<byte>, maxLen: nat) returns (len: nat)
      requires Valid() && maxLen <= dest.Length && dest != ring
      modifies dest
      ensures len == Min(|queue|, maxLen) && dest[..len] == queue[..len]
    {
      len := count;
      if len > maxLen {
        len := maxLen;
      }
      if len == 0 {
        return;
      }
      var firstPart := len;
      if firstPart > RING_SIZE - tail {
        firstPart := RING_SIZE - tail;
      }
      hide Contents;
      ghost var r := ring[..];
      OldestInTwoRuns(r, tail, count, len);
      assert r[tail..tail + firstPart] == ring[tail..tail + firstPart] && r[..len - firstPart] == ring[..len - firstPart];
      CopyRuns(dest, firstPart, len);
    }

    /** The two copies of a peek: up to the end of the array, and on from its start. */
    method CopyRuns(dest: array<byte>, firstPart: nat, len: nat)
      requires ring.Length == RING_SIZE && dest != ring && firstPart <= len <= dest.Length
      requires tail + firstPart <= RING_SIZE && len - firstPart <= RING_SIZE
      modifies dest
      ensures dest[..len] == ring[tail..tail + firstPart] + ring[..len - firstPart]
    {
      ghost var first := ring[tail..tail + firstPart];
      PutNext(dest, 0, ring[tail..tail + firstPart], [], dest.Length);
      assert dest[..firstPart] == first;
      if len - firstPart > 0 {
        PutNext(dest, firstPart, ring[..len - firstPart], first, dest.Length);
      }
    }

    method ConsumeChunk(n: nat)
      requires Valid()
      modifies this`tail, this`count, this`queue
      ensures Valid() && queue == old(queue)[Min(n, |old(queue)|)..]
    {
      if n == 0 {
        return;
      }
      var len := n;
      if len > count {
        len := count;
      }
      hide Contents, Wrap;
      WrapIsModulo(tail + len);
      HeadStays(tail, count, len);
      AdvanceDrops(ring[..], tail, count, len);
      tail := (tail + len) % RING_SIZE;
      count := count - len;
      queue := queue[len..];
    }
  }
}
