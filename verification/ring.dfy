/** Index arithmetic of the driver's move-report ring: `QUEUE_SIZE` slots,
 *  a start index (next to read) and an end index (next to write), both
 *  taken modulo `QUEUE_SIZE`. One slot always stays empty, so "empty" is
 *  start == end and "full" is (end + 1) mod QUEUE_SIZE == start. */
module Ring {
  import opened Types
  import opened AemConfig

  type Index = i: nat | i < QUEUE_SIZE

  /** `(i + 1) % AEM_MESSAGE_QUEUE_SIZE`. */
  function Next(i: Index): Index {
    (i + 1) % QUEUE_SIZE
  }

  /** The messages between start and end, oldest first. */
  function Contents<T>(q: seq<T>, start: Index, end: Index): seq<T>
    requires |q| == QUEUE_SIZE
  {
    if start <= end then q[start..end] else q[start..] + q[..end]
  }

  /** Number of messages held, `(end - start) mod QUEUE_SIZE`. */
  function Depth(start: Index, end: Index): nat {
    (end - start) % QUEUE_SIZE
  }

  /** The QueueSize answer as the driver computes it: the DWORD32 difference
   *  `end - start` read back as an `int`, plus QUEUE_SIZE when negative. */
  function QueueSizeValue(start: Index, end: Index): (n: uint32)
    ensures n == Depth(start, end) && n < QUEUE_SIZE
  {
    var value := ToInt32(ToUint32(end - start));
    if value < 0 then value + QUEUE_SIZE else value
  }

  lemma ContentsLength<T>(q: seq<T>, start: Index, end: Index)
    requires |q| == QUEUE_SIZE
    ensures |Contents(q, start, end)| == Depth(start, end)
    ensures Depth(start, end) < QUEUE_SIZE
  {
  }

  /** Slot k of the abstract contents is physical slot (start + k) mod QUEUE_SIZE. */
  lemma ContentsAt<T>(q: seq<T>, start: Index, end: Index, k: nat)
    requires |q| == QUEUE_SIZE && k < Depth(start, end)
    ensures |Contents(q, start, end)| == Depth(start, end)
    ensures Contents(q, start, end)[k] == q[(start + k) % QUEUE_SIZE]
  {
    ContentsLength(q, start, end);
    if start > end && start + k >= QUEUE_SIZE {
      assert Contents(q, start, end)[k] == q[..end][k - (QUEUE_SIZE - start)];
    }
  }

  /** The ring is empty exactly when the two indices meet. */
  lemma EmptyIffIndicesMeet(start: Index, end: Index)
    ensures Depth(start, end) == 0 <==> start == end
  {
  }

  /** The ring is full exactly when it holds QUEUE_SIZE - 1 messages. */
  lemma FullIffOneSlotLeft(start: Index, end: Index)
    ensures Next(end) == start <==> Depth(start, end) == QUEUE_SIZE - 1
  {
  }

  /** Writing slot `end` and advancing `end` appends one message. */
  lemma Push<T>(q: seq<T>, start: Index, end: Index, m: T)
    requires |q| == QUEUE_SIZE && Next(end) != start
    ensures Contents(q[end := m], start, Next(end)) == Contents(q, start, end) + [m]
  {
    var q' := q[end := m];
    if start <= end {
      if end + 1 < QUEUE_SIZE {
        assert Next(end) == end + 1;
        assert q'[start..end + 1] == q[start..end] + [m];
      } else {
        assert Next(end) == 0;
        assert q'[start..] + q'[..0] == q[start..end] + [m];
      }
    } else {
      assert Next(end) == end + 1;
      assert q'[start..] == q[start..];
      assert q'[..end + 1] == q[..end] + [m];
    }
  }

  /** Advancing `start` removes the oldest message, which sits in slot `start`. */
  lemma Pop<T>(q: seq<T>, start: Index, end: Index)
    requires |q| == QUEUE_SIZE && start != end
    ensures Contents(q, start, end) != []
    ensures Contents(q, start, end)[0] == q[start]
    ensures Contents(q, Next(start), end) == Contents(q, start, end)[1..]
  {
    if start < end {
      assert Next(start) == start + 1;
      assert q[start..end][1..] == q[start + 1..end];
    } else if start + 1 < QUEUE_SIZE {
      assert Next(start) == start + 1;
      assert (q[start..] + q[..end])[1..] == q[start + 1..] + q[..end];
    } else {
      assert Next(start) == 0;
      assert (q[start..] + q[..end])[1..] == q[..end];
    }
  }

  /** Resetting both indices to 0 (or to any common value) empties the ring. */
  lemma ResetEmpties<T>(q: seq<T>, i: Index)
    requires |q| == QUEUE_SIZE
    ensures Contents(q, i, i) == []
  {
  }
}
