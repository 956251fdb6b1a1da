/**
  The round-robin block-generation schedule of `BlockTimeCounter`
  (packages/protocols/generation_queue.go).

  Times are integers counting nanoseconds since the Unix epoch, and durations
  count nanoseconds, as Go's `time.Duration` does; `time.Unix(0, 0)` is 0.
  A counter is immutable after construction, so it is a datatype and every
  method of the Go struct is a function of the counter.
*/
module GenerationQueue {
  import opened Wrappers
  import opened GoInt

  type Time = int
  type Duration = int

  const Nanosecond: Duration := 1
  const Millisecond: Duration := 1_000_000
  const Second: Duration := 1_000_000_000
  /** `time.Unix(0, 0)`, returned alongside every error that carries a time. */
  const UnixZero: Time := 0

  datatype Error =
    | WrongNodePosition     // WrongNodePositionError
    | TimeBeforeFirstBlock  // TimeError
    | DuplicateBlock        // DuplicateBlockError
    | Storage(reason: string)  // whatever the block store reports

  /** A Go `(value, error)` pair: Go returns a value alongside an error too. */
  datatype Reply<T> = Reply(value: T, err: Option<Error>)

  /** The `(start, end, err)` triple of `RangesByTime`. */
  datatype Window = Window(start: Time, end: Time, err: Option<Error>)

  datatype BlockTimeCounter = BlockTimeCounter(start: Time, duration: Duration, numberNodes: int)

  /** A block reported by the store: its id and generation time. */
  datatype BlockRef = BlockRef(id: int, time: Time)

  /** The answer of `GetNodeBlocksAtTime(start, end, nodePosition)`. */
  datatype Lookup = Lookup(blocks: seq<BlockRef>, err: Option<Error>)

  /** The block store, as an oracle from (window start, window end, node position). */
  type BlockOracle = (Time, Time, int) -> Lookup

  /** Go divides by `duration` only once `t` is not before `start`. */
  predicate QueueDefined(c: BlockTimeCounter, t: Time) {
    t < c.start || c.duration != 0
  }

  /** Go also takes the remainder by `numberNodes` once `t` is not before `start`. */
  predicate PositionDefined(c: BlockTimeCounter, t: Time) {
    t < c.start || (c.duration != 0 && c.numberNodes != 0)
  }

  /**
    `Queue`: the serial number of the slot holding `t`. Slot `k` is the interval
    `(start + k*duration, start + (k+1)*duration]`. When `duration > 1ns`,
    `start` itself falls in slot 0 (the `- 1ns` before Go's truncating
    division); with 1ns slots its queue number is -1.
  */
  function Queue(c: BlockTimeCounter, t: Time): (r: Reply<int>)
    requires QueueDefined(c, t)
    ensures r.err.Some? <==> t < c.start
    ensures r.err.Some? ==> r == Reply(-1, Some(TimeBeforeFirstBlock))
    ensures 0 < c.duration && c.start < t ==>
              0 <= r.value && c.start + r.value * c.duration < t <= c.start + (r.value + 1) * c.duration
    ensures 1 < c.duration && t == c.start ==> r.value == 0
  {
    if t < c.start then Reply(-1, Some(TimeBeforeFirstBlock))
    else Reply(Quo(t - c.start - Nanosecond, c.duration), None)
  }

  /** `NodePosition`: the position of the node that owns the slot of `t`. */
  function NodePosition(c: BlockTimeCounter, t: Time): (r: Reply<int>)
    requires PositionDefined(c, t)
    ensures r.err == Queue(c, t).err
    ensures r.err.Some? ==> r.value == -1
    ensures r.err.None? ==> r.value == Rem(Queue(c, t).value, c.numberNodes)
    ensures r.err.None? && 0 < c.numberNodes && 0 <= Queue(c, t).value ==>
              0 <= r.value < c.numberNodes && r.value == Queue(c, t).value % c.numberNodes
  {
    var q := Queue(c, t);
    if q.err.Some? then Reply(-1, q.err)
    else Reply(Rem(q.value, c.numberNodes), None)
  }

  /** Every time of slot `k` (`k >= 0`) has queue number `k`. */
  lemma {:induction false} QueueOfSlot(c: BlockTimeCounter, k: int, t: Time)
    requires 0 < c.duration && 0 <= k
    requires c.start + k * c.duration < t <= c.start + (k + 1) * c.duration
    ensures Queue(c, t) == Reply(k, None)
  {
    var x := t - c.start - Nanosecond;
    assert c.duration * k <= x < c.duration * k + c.duration;
    DivModUnique(x, c.duration, k);
  }

  /** Two times in the same slot have the same queue number and the same node position. */
  lemma {:induction false} SameSlotSamePosition(c: BlockTimeCounter, k: int, t1: Time, t2: Time)
    requires 0 < c.duration && 0 < c.numberNodes && 0 <= k
    requires c.start + k * c.duration < t1 <= c.start + (k + 1) * c.duration
    requires c.start + k * c.duration < t2 <= c.start + (k + 1) * c.duration
    ensures Queue(c, t1) == Queue(c, t2)
    ensures NodePosition(c, t1) == NodePosition(c, t2) == Reply(k % c.numberNodes, None)
  {
    QueueOfSlot(c, k, t1);
    QueueOfSlot(c, k, t2);
  }

  /**
    How many slots after slot `queue` node `nodePosition` comes next
    (`d` in `NextTime`): a full round when it owns slot `queue` itself.
  */
  function SlotOffset(c: BlockTimeCounter, queue: int, nodePosition: int): (d: int)
    requires c.numberNodes != 0
    ensures 0 <= nodePosition < c.numberNodes && -1 <= queue ==> 1 <= d <= c.numberNodes
    ensures Rem(queue, c.numberNodes) == nodePosition ==> d == c.numberNodes
  {
    var cur := Rem(queue, c.numberNodes);
    if cur >= nodePosition then nodePosition - cur + c.numberNodes else nodePosition - cur
  }

  /**
    `NextTime`: the next instant node `nodePosition` may generate, one
    millisecond into the next slot that node owns.
  */
  function NextTime(c: BlockTimeCounter, t: Time, nodePosition: int): (r: Reply<Time>)
    requires nodePosition >= c.numberNodes || PositionDefined(c, t)
    ensures nodePosition >= c.numberNodes ==> r == Reply(UnixZero, Some(WrongNodePosition))
    ensures nodePosition < c.numberNodes && t < c.start ==> r == Reply(UnixZero, Some(TimeBeforeFirstBlock))
    ensures r.err.None? <==> nodePosition < c.numberNodes && c.start <= t
    ensures r.err.None? ==>
              var q := Queue(c, t).value;
              r.value == c.start + c.duration * (q + SlotOffset(c, q, nodePosition)) + Millisecond
  {
    if nodePosition >= c.numberNodes then Reply(UnixZero, Some(WrongNodePosition))
    else
      var q := Queue(c, t);
      if q.err.Some? then Reply(UnixZero, q.err)
      else Reply(c.start + c.duration * (q.value + SlotOffset(c, q.value, nodePosition)) + Millisecond, None)
  }

  /** The common hypothesis of the lemmas about `NextTime`. */
  predicate Schedulable(c: BlockTimeCounter, t: Time, nodePosition: int) {
    0 < c.duration && 0 <= nodePosition < c.numberNodes && c.start <= t
  }

  /**
    From slot `queue` (or from just before slot 0, `queue == -1`), the offset
    leads to the first later slot owned by `nodePosition`.
  */
  lemma {:induction false} SlotOffsetReachesOwner(c: BlockTimeCounter, queue: int, nodePosition: int)
    requires 0 <= nodePosition < c.numberNodes && -1 <= queue
    ensures var k := queue + SlotOffset(c, queue, nodePosition);
            queue < k && 0 <= k && k % c.numberNodes == nodePosition &&
            forall j :: queue < j < k ==> j % c.numberNodes != nodePosition
  {
    if queue == -1 {
      OffsetBeforeFirstSlot(c, nodePosition);
    } else {
      OffsetFromSlot(c, queue, nodePosition);
    }
  }

  /** Before slot 0 the node's first slot is the one numbered by its position. */
  lemma {:induction false} OffsetBeforeFirstSlot(c: BlockTimeCounter, nodePosition: int)
    requires 0 <= nodePosition < c.numberNodes
    ensures -1 + SlotOffset(c, -1, nodePosition) == nodePosition
    ensures nodePosition % c.numberNodes == nodePosition
    ensures forall j :: -1 < j < nodePosition ==> j % c.numberNodes != nodePosition
  {
    var n := c.numberNodes;
    assert Rem(-1, n) == if n == 1 then 0 else -1 by {
      if n > 1 {
        assert Quo(-1, n) == 0;
      }
    }
    DivModUnique(nodePosition, n, 0);
    forall j | -1 < j < nodePosition
      ensures j % n != nodePosition
    {
      DivModUnique(j, n, 0);
    }
  }

  /** From slot `queue >= 0` the offset reaches the node's next slot, in this round or the next. */
  lemma {:induction false} OffsetFromSlot(c: BlockTimeCounter, queue: int, nodePosition: int)
    requires 0 <= nodePosition < c.numberNodes && 0 <= queue
    ensures var k := queue + SlotOffset(c, queue, nodePosition);
            queue < k && k % c.numberNodes == nodePosition &&
            forall j :: queue < j < k ==> j % c.numberNodes != nodePosition
  {
    var n, q := c.numberNodes, queue;
    var cur := q % n;
    var a := q / n;
    assert Rem(q, n) == cur;
    assert q == n * a + cur;
    var k := q + SlotOffset(c, q, nodePosition);
    var b := if cur >= nodePosition then a + 1 else a;
    assert k == n * b + nodePosition;
    DivModUnique(k, n, b);
    forall j | q < j < k
      ensures j % n != nodePosition
    {
      if j < n * a + n {
        DivModUnique(j, n, a);
      } else {
        DivModUnique(j, n, a + 1);
      }
    }
  }

  /**
    The slot `NextTime` aims at is owned by the node, and no slot between the
    current one and it is.
  */
  lemma {:induction false} NextSlotOwnedByNode(c: BlockTimeCounter, t: Time, nodePosition: int)
    requires Schedulable(c, t, nodePosition)
    ensures var q := Queue(c, t).value;
            var k := q + SlotOffset(c, q, nodePosition);
            q < k && 0 <= k && k % c.numberNodes == nodePosition &&
            forall j :: q < j < k ==> j % c.numberNodes != nodePosition
  {
    var q := Queue(c, t).value;
    assert -1 <= q by {
      if t == c.start {
        assert Quo(-1, c.duration) >= -1;
      }
    }
    SlotOffsetReachesOwner(c, q, nodePosition);
  }

  /** `NextTime` is strictly in the future. */
  lemma {:induction false} NextTimeIsLater(c: BlockTimeCounter, t: Time, nodePosition: int)
    requires Schedulable(c, t, nodePosition)
    ensures NextTime(c, t, nodePosition).err.None? && t < NextTime(c, t, nodePosition).value
  {
    var q := Queue(c, t).value;
    var k := q + SlotOffset(c, q, nodePosition);
    NextSlotOwnedByNode(c, t, nodePosition);
    assert t <= c.start + c.duration * (q + 1) by {
      if t == c.start {
        assert -1 <= q;
        MulMonotone(c.duration, 0, q + 1);
      }
    }
    MulMonotone(c.duration, q + 1, k);
  }

  /**
    With slots of at least a millisecond, the instant `NextTime` returns lies
    in the slot the offset aimed at.
  */
  lemma {:induction false} NextTimeInSlot(c: BlockTimeCounter, t: Time, nodePosition: int)
    requires Schedulable(c, t, nodePosition) && Millisecond <= c.duration
    ensures var q := Queue(c, t).value;
            var k := q + SlotOffset(c, q, nodePosition);
            var next := NextTime(c, t, nodePosition).value;
            0 <= k && next == c.start + k * c.duration + Millisecond &&
            c.start + k * c.duration < next <= c.start + (k + 1) * c.duration
  {
    var q := Queue(c, t).value;
    var k := q + SlotOffset(c, q, nodePosition);
    NextSlotOwnedByNode(c, t, nodePosition);
    assert c.duration * k == k * c.duration;
    assert (k + 1) * c.duration == k * c.duration + c.duration;
  }

  /** With slots of at least a millisecond, the node owns the instant `NextTime` returns. */
  lemma {:induction false} NextTimeBelongsToNode(c: BlockTimeCounter, t: Time, nodePosition: int)
    requires Schedulable(c, t, nodePosition) && Millisecond <= c.duration
    ensures var next := NextTime(c, t, nodePosition).value;
            var q := Queue(c, t).value;
            Queue(c, next) == Reply(q + SlotOffset(c, q, nodePosition), None) &&
            NodePosition(c, next) == Reply(nodePosition, None)
  {
    var q := Queue(c, t).value;
    var k := q + SlotOffset(c, q, nodePosition);
    NextSlotOwnedByNode(c, t, nodePosition);
    NextTimeInSlot(c, t, nodePosition);
    QueueOfSlot(c, k, NextTime(c, t, nodePosition).value);
  }

  /**
    `TimeToGenerate`: whether node `nodePosition` owns the slot of `at`. As in
    Go, the comparison is returned even beside an error, so a caller must look
    at the error first.
  */
  function TimeToGenerate(c: BlockTimeCounter, at: Time, nodePosition: int): (r: Reply<bool>)
    requires nodePosition >= c.numberNodes || PositionDefined(c, at)
    ensures nodePosition >= c.numberNodes ==> r == Reply(false, Some(WrongNodePosition))
    ensures nodePosition < c.numberNodes && at < c.start ==>
              r == Reply(nodePosition == -1, Some(TimeBeforeFirstBlock))
    ensures nodePosition < c.numberNodes && c.start <= at ==>
              r.err.None? && (r.value <==> Rem(Queue(c, at).value, c.numberNodes) == nodePosition)
  {
    if nodePosition >= c.numberNodes then Reply(false, Some(WrongNodePosition))
    else
      var position := NodePosition(c, at);
      Reply(position.value == nodePosition, position.err)
  }

  /** From the first block on, exactly one node position may generate at any time. */
  lemma {:induction false} ExactlyOneTurn(c: BlockTimeCounter, at: Time)
    requires 1 < c.duration && 0 < c.numberNodes && c.start <= at
    ensures var owner := NodePosition(c, at).value;
            0 <= owner < c.numberNodes && TimeToGenerate(c, at, owner) == Reply(true, None) &&
            forall p :: 0 <= p < c.numberNodes && p != owner ==> TimeToGenerate(c, at, p) == Reply(false, None)
  {
    assert 0 <= Queue(c, at).value;
  }

  /** When it is the node's turn now, `NextTime` skips a full round. */
  lemma {:induction false} NextTimeAfterOwnTurn(c: BlockTimeCounter, t: Time, nodePosition: int)
    requires Schedulable(c, t, nodePosition)
    requires TimeToGenerate(c, t, nodePosition) == Reply(true, None)
    ensures NextTime(c, t, nodePosition) ==
              Reply(c.start + c.duration * (Queue(c, t).value + c.numberNodes) + Millisecond, None)
  {
  }

  /** The next instant a node may generate is, by `TimeToGenerate`, its turn. */
  lemma {:induction false} NextTimeIsTurn(c: BlockTimeCounter, t: Time, nodePosition: int)
    requires Schedulable(c, t, nodePosition) && Millisecond <= c.duration
    ensures TimeToGenerate(c, NextTime(c, t, nodePosition).value, nodePosition) == Reply(true, None)
  {
    NextTimeIsLater(c, t, nodePosition);
    NextTimeBelongsToNode(c, t, nodePosition);
  }

  /**
    `RangesByTime`, as written: the window that ends `NodePosition(t) + 1`
    slots after `start`. It is computed from the node position, not from the
    queue number.
  */
  function RangesByTime(c: BlockTimeCounter, t: Time): (r: Window)
    requires PositionDefined(c, t)
    ensures r.err == Queue(c, t).err
    ensures r.err.Some? ==> r.start == UnixZero && r.end == UnixZero
    ensures r.err.None? ==> r.end == c.start + c.duration * (NodePosition(c, t).value + 1)
    ensures r.err.None? ==> r.end - r.start == c.duration - Millisecond
  {
    var position := NodePosition(c, t);
    if position.err.Some? then Window(UnixZero, UnixZero, position.err)
    else
      var end := c.start + c.duration * (position.value + 1);
      Window(end - c.duration + Millisecond, end, None)
  }

  /**
    The window of `RangesByTime` always lies in the first round of slots, so
    from the second round on it ends before `t`: the duplicate check then looks
    at a slot long past instead of the current one.
  */
  lemma {:induction false} RangesByTimeLagsBehind(c: BlockTimeCounter, t: Time)
    requires 0 < c.duration && 0 < c.numberNodes && c.start < t
    requires c.numberNodes <= Queue(c, t).value
    ensures RangesByTime(c, t).err.None? && RangesByTime(c, t).end < t
  {
    var q := Queue(c, t).value;
    var position := NodePosition(c, t).value;
    assert position + 1 <= c.numberNodes <= q;
    MulAtLeast(q - position, c.duration);
    assert c.duration * (position + 1) <= c.duration * q;
  }

  /** A concrete instance: 10-second slots, three nodes, t = 45s is in slot 4 but the window is slot 1's. */
  lemma RangesByTimeMissesSlot()
    ensures var c := BlockTimeCounter(0, 10 * Second, 3);
            var w := RangesByTime(c, 45 * Second);
            Queue(c, 45 * Second) == Reply(4, None) &&
            w == Window(10 * Second + Millisecond, 20 * Second, None) && !(w.start <= 45 * Second <= w.end)
  {
    var c := BlockTimeCounter(0, 10 * Second, 3);
    QueueOfSlot(c, 4, 45 * Second);
  }

  /**
    The window of the slot holding `t`, built from the queue number: what the
    duplicate-block check needs.
  */
  function SlotRange(c: BlockTimeCounter, t: Time): (r: Window)
    requires QueueDefined(c, t)
    ensures r.err == Queue(c, t).err
    ensures r.err.Some? ==> r.start == UnixZero && r.end == UnixZero
    ensures r.err.None? ==> r.end - r.start == c.duration - Millisecond
    ensures r.err.None? && 0 < c.duration && c.start < t ==> r.start - Millisecond < t <= r.end
  {
    var q := Queue(c, t);
    if q.err.Some? then Window(UnixZero, UnixZero, q.err)
    else
      var end := c.start + c.duration * (q.value + 1);
      Window(end - c.duration + Millisecond, end, None)
  }

  /** The window of every time of slot `k` (`k >= 0`) is that slot, less its first millisecond. */
  lemma {:induction false} SlotRangeOfSlot(c: BlockTimeCounter, k: int, u: Time)
    requires 0 < c.duration && 0 <= k
    requires c.start + k * c.duration < u <= c.start + (k + 1) * c.duration
    ensures SlotRange(c, u) ==
              Window(c.start + k * c.duration + Millisecond, c.start + (k + 1) * c.duration, None)
  {
    QueueOfSlot(c, k, u);
    assert (k + 1) * c.duration == k * c.duration + c.duration;
  }

  /**
    Every instant of `SlotRange(t)` lies in the slot of `t`, so the window is
    the same for every time of that slot.
  */
  lemma {:induction false} SlotRangeWithinSlot(c: BlockTimeCounter, t: Time, u: Time)
    requires Millisecond <= c.duration && c.start <= t
    requires SlotRange(c, t).start <= u <= SlotRange(c, t).end
    ensures Queue(c, u) == Queue(c, t)
    ensures SlotRange(c, u) == SlotRange(c, t)
  {
    var q := Queue(c, t).value;
    assert 0 <= q;
    assert c.start + q * c.duration < u <= c.start + (q + 1) * c.duration;
    QueueOfSlot(c, q, u);
  }

  /** The slot window of the next turn begins exactly at the instant `NextTime` returns. */
  lemma {:induction false} NextTimeOpensSlot(c: BlockTimeCounter, t: Time, nodePosition: int)
    requires Schedulable(c, t, nodePosition) && Millisecond <= c.duration
    ensures var next := NextTime(c, t, nodePosition).value;
            SlotRange(c, next).err.None? && SlotRange(c, next).start == next
  {
    var q := Queue(c, t).value;
    var k := q + SlotOffset(c, q, nodePosition);
    NextTimeInSlot(c, t, nodePosition);
    SlotRangeOfSlot(c, k, NextTime(c, t, nodePosition).value);
  }

  /** The answer of `BlockForTimeExists` for a window and a node, asking the store. */
  function CheckWindow(w: Window, nodePosition: int, blocks: BlockOracle): (r: Reply<bool>)
    ensures r.value <==> r.err.None?
    ensures r.err.None? <==>
              w.err.None? && blocks(w.start, w.end, nodePosition) == Lookup([], None)
  {
    if w.err.Some? then Reply(false, w.err)
    else
      var found := blocks(w.start, w.end, nodePosition);
      if found.err.Some? then Reply(false, found.err)
      else if |found.blocks| != 0 then Reply(false, Some(DuplicateBlock))
      else Reply(true, None)
  }

  /**
    `BlockForTimeExists`, as written: `(true, nil)` when the store reports no
    block of the node in the `RangesByTime` window, `(false, DuplicateBlockError)`
    when it reports some, and `false` with the window's or the store's error.
  */
  function BlockForTimeExists(c: BlockTimeCounter, t: Time, nodePosition: int, blocks: BlockOracle): (r: Reply<bool>)
    requires PositionDefined(c, t)
    ensures var w := RangesByTime(c, t);
            var found := blocks(w.start, w.end, nodePosition);
            && (r == Reply(true, None) <==> w.err.None? && found == Lookup([], None))
            && (w.err.Some? ==> r == Reply(false, w.err))
            && (w.err.None? && found.err.Some? ==> r == Reply(false, found.err))
            && (w.err.None? && found.err.None? && found.blocks != [] ==> r == Reply(false, Some(DuplicateBlock)))
  {
    CheckWindow(RangesByTime(c, t), nodePosition, blocks)
  }

  /** The duplicate-block check over the slot of `t` (see `SlotRange`). */
  function BlockForSlotExists(c: BlockTimeCounter, t: Time, nodePosition: int, blocks: BlockOracle): (r: Reply<bool>)
    requires QueueDefined(c, t)
    ensures var w := SlotRange(c, t);
            var found := blocks(w.start, w.end, nodePosition);
            && (r == Reply(true, None) <==> w.err.None? && found == Lookup([], None))
            && (w.err.Some? ==> r == Reply(false, w.err))
            && (w.err.None? && found.err.Some? ==> r == Reply(false, found.err))
            && (w.err.None? && found.err.None? && found.blocks != [] ==> r == Reply(false, Some(DuplicateBlock)))
  {
    CheckWindow(SlotRange(c, t), nodePosition, blocks)
  }

  /**
    `NewBlockTimeCounter` with its configuration reads turned into parameters:
    the first block's time in seconds, the maximal generation time in
    milliseconds, the gap between blocks in seconds, and the node count.
  */
  function NewBlockTimeCounter(firstBlockTime: int, maxBlockGenerationTime: int, gapsBetweenBlocks: int,
                               numberOfNodes: int): (c: BlockTimeCounter)
    ensures c.start == Second * firstBlockTime
    ensures c.duration == Millisecond * maxBlockGenerationTime + Second * gapsBetweenBlocks
    ensures c.start % Second == 0 && c.duration % Millisecond == 0
    ensures c.numberNodes == numberOfNodes
    ensures (0 <= maxBlockGenerationTime && 0 <= gapsBetweenBlocks && 0 < maxBlockGenerationTime + gapsBetweenBlocks)
              ==> Millisecond <= c.duration
  {
    var start := firstBlockTime * Second;
    var duration := Millisecond * maxBlockGenerationTime + Second * gapsBetweenBlocks;
    DivModUnique(start, Second, firstBlockTime);
    DivModUnique(duration, Millisecond, maxBlockGenerationTime + 1000 * gapsBetweenBlocks);
    BlockTimeCounter(start, duration, numberOfNodes)
  }

  /** Epoch 0, 10-second slots, three nodes: at 25s slot 2 is node 2's turn, not node 0's. */
  lemma ThreeNodeExample()
    ensures var c := BlockTimeCounter(0, 10 * Second, 3);
            && Queue(c, 25 * Second) == Reply(2, None)
            && NodePosition(c, 25 * Second) == Reply(2, None)
            && TimeToGenerate(c, 25 * Second, 2) == Reply(true, None)
            && TimeToGenerate(c, 25 * Second, 0) == Reply(false, None)
            && NextTime(c, 25 * Second, 0) == Reply(30 * Second + Millisecond, None)
  {
    var c := BlockTimeCounter(0, 10 * Second, 3);
    QueueOfSlot(c, 2, 25 * Second);
  }
}
