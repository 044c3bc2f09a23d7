/** The FIFO and strict-priority packet schedulers of the data plane
    (assignment-8-data-plane/scheduler.py), as sequential state machines: `Admit` is
    the producer's non-blocking put (a full queue drops the packet), `Finish` the
    blocking put of the end marker, and `Deliver` one step of the consumer. The
    fill-first harness admits the whole batch, then closes, then drains. */
module Scheduling {
  import opened Wrappers
  import opened Numbers

  // ---------------------------------------------------------------------------
  // Packets and their order

  /** `Priority(IntEnum)`: HIGH = 0, MEDIUM = 1, LOW = 2. */
  datatype Priority = High | Medium | Low

  function Rank(p: Priority): (n: nat)
    ensures n <= 2
    ensures p == High <==> n == 0
    ensures p == Low <==> n == 2
  {
    match p
    case High => 0
    case Medium => 1
    case Low => 2
  }

  /** `Packet(NamedTuple)`. */
  datatype Packet = Packet(priority: Priority, sourceIp: string, destIp: string, payload: string)

  /** Python's `<=` on `str`: lexicographic on code points, a prefix first. */
  predicate StrLe(a: string, b: string)
  {
    |a| == 0 || (|b| > 0 && (a[0] < b[0] || (a[0] == b[0] && StrLe(a[1..], b[1..]))))
  }

  predicate StrLt(a: string, b: string)
  {
    StrLe(a, b) && a != b
  }

  /** Tuple comparison on `(priority, source_ip, dest_ip, payload)`, the order `heapq`
      uses on `Packet`s. */
  predicate PacketLe(p: Packet, q: Packet)
  {
    Rank(p.priority) < Rank(q.priority) ||
    (p.priority == q.priority &&
     (StrLt(p.sourceIp, q.sourceIp) ||
      (p.sourceIp == q.sourceIp &&
       (StrLt(p.destIp, q.destIp) ||
        (p.destIp == q.destIp && StrLe(p.payload, q.payload))))))
  }

  lemma RankOrder()
    ensures Rank(High) < Rank(Medium) < Rank(Low)
  {
  }

  lemma {:induction false} StrLeReflexive(a: string)
    ensures StrLe(a, a)
    decreases |a|
  {
    if |a| > 0 {
      StrLeReflexive(a[1..]);
    }
  }

  lemma {:induction false} StrLeAntisymmetric(a: string, b: string)
    requires StrLe(a, b) && StrLe(b, a)
    ensures a == b
    decreases |a|
  {
    if |a| > 0 {
      StrLeAntisymmetric(a[1..], b[1..]);
      assert a == [a[0]] + a[1..] && b == [b[0]] + b[1..];
    }
  }

  lemma {:induction false} StrLeTransitive(a: string, b: string, c: string)
    requires StrLe(a, b) && StrLe(b, c)
    ensures StrLe(a, c)
    decreases |a|
  {
    if |a| > 0 && a[0] == b[0] && b[0] == c[0] {
      StrLeTransitive(a[1..], b[1..], c[1..]);
    }
  }

  lemma {:induction false} StrLeTotal(a: string, b: string)
    ensures StrLe(a, b) || StrLe(b, a)
    decreases |a|
  {
    if |a| > 0 && |b| > 0 && a[0] == b[0] {
      StrLeTotal(a[1..], b[1..]);
    }
  }

  lemma PacketLeReflexive(p: Packet)
    ensures PacketLe(p, p)
  {
    StrLeReflexive(p.payload);
  }

  /** Two packets in each other's order are the same packet: the order has no ties. */
  lemma PacketLeAntisymmetric(p: Packet, q: Packet)
    requires PacketLe(p, q) && PacketLe(q, p)
    ensures p == q
  {
    if p.sourceIp != q.sourceIp && StrLe(p.sourceIp, q.sourceIp) && StrLe(q.sourceIp, p.sourceIp) {
      StrLeAntisymmetric(p.sourceIp, q.sourceIp);
    }
    if p.destIp != q.destIp && StrLe(p.destIp, q.destIp) && StrLe(q.destIp, p.destIp) {
      StrLeAntisymmetric(p.destIp, q.destIp);
    }
    if p.priority == q.priority && p.sourceIp == q.sourceIp && p.destIp == q.destIp {
      StrLeAntisymmetric(p.payload, q.payload);
    }
  }

  lemma StrLtTransitive(a: string, b: string, c: string)
    requires StrLt(a, b) && StrLt(b, c)
    ensures StrLt(a, c)
  {
    StrLeTransitive(a, b, c);
    if a == c {
      StrLeAntisymmetric(a, b);
    }
  }

  /** A first difference at position `k` decides the order of two strings. */
  lemma {:induction false} StrLtAt(a: string, b: string, k: nat)
    requires k < |a| && k < |b| && a[..k] == b[..k] && a[k] < b[k]
    ensures StrLt(a, b)
    decreases k
  {
    if k > 0 {
      assert a[0] == a[..k][0] == b[..k][0] == b[0];
      assert a[1..][..k - 1] == a[..k][1..] == b[..k][1..] == b[1..][..k - 1];
      StrLtAt(a[1..], b[1..], k - 1);
    }
  }

  lemma PacketLeTransitive(p: Packet, q: Packet, r: Packet)
    requires PacketLe(p, q) && PacketLe(q, r)
    ensures PacketLe(p, r)
  {
    if p.priority == q.priority == r.priority {
      if StrLt(p.sourceIp, q.sourceIp) && StrLt(q.sourceIp, r.sourceIp) {
        StrLtTransitive(p.sourceIp, q.sourceIp, r.sourceIp);
      } else if p.sourceIp == q.sourceIp == r.sourceIp {
        if StrLt(p.destIp, q.destIp) && StrLt(q.destIp, r.destIp) {
          StrLtTransitive(p.destIp, q.destIp, r.destIp);
        } else if p.destIp == q.destIp == r.destIp {
          StrLeTransitive(p.payload, q.payload, r.payload);
        }
      }
    }
  }

  lemma PacketLeTotal(p: Packet, q: Packet)
    ensures PacketLe(p, q) || PacketLe(q, p)
  {
    StrLeTotal(p.sourceIp, q.sourceIp);
    StrLeTotal(p.destIp, q.destIp);
    StrLeTotal(p.payload, q.payload);
  }

  // ---------------------------------------------------------------------------
  // Minima of a multiset of packets

  ghost predicate IsMinimum(m: Packet, h: multiset<Packet>)
  {
    m in h && forall q :: q in h ==> PacketLe(m, q)
  }

  /** Every non-empty heap has a minimum, and it is unique. */
  lemma {:induction false} MinimumExists(h: multiset<Packet>)
    requires |h| > 0
    ensures exists m :: IsMinimum(m, h)
    decreases |h|
  {
    var x :| x in h;
    var rest := h - multiset{x};
    if |rest| == 0 {
      assert h == multiset{x};
      PacketLeReflexive(x);
      assert IsMinimum(x, h);
    } else {
      MinimumExists(rest);
      var m :| IsMinimum(m, rest);
      PacketLeTotal(x, m);
      PacketLeReflexive(x);
      PacketLeReflexive(m);
      if PacketLe(x, m) {
        forall q | q in h ensures PacketLe(x, q) {
          if q != x {
            assert q in rest;
            PacketLeTransitive(x, m, q);
          }
        }
        assert IsMinimum(x, h);
      } else {
        assert IsMinimum(m, h);
      }
    }
  }

  lemma MinimumUnique(m: Packet, n: Packet, h: multiset<Packet>)
    requires IsMinimum(m, h) && IsMinimum(n, h)
    ensures m == n
  {
    PacketLeAntisymmetric(m, n);
  }

  // ---------------------------------------------------------------------------
  // Sorted sequences

  predicate Sorted(s: seq<Packet>)
  {
    forall i, j :: 0 <= i < j < |s| ==> PacketLe(s[i], s[j])
  }

  /** The head of a sorted sequence is the least of its elements. */
  lemma SortedHead(a: seq<Packet>)
    requires Sorted(a) && |a| > 0
    ensures IsMinimum(a[0], multiset(a)) && Sorted(a[1..])
  {
    forall q | q in multiset(a) ensures PacketLe(a[0], q) {
      var i :| 0 <= i < |a| && a[i] == q;
      if i == 0 {
        PacketLeReflexive(q);
      }
    }
  }

  /** There is only one sorted arrangement of a multiset of packets. */
  lemma {:induction false} SortedUnique(a: seq<Packet>, b: seq<Packet>)
    requires Sorted(a) && Sorted(b) && multiset(a) == multiset(b)
    ensures a == b
    decreases |a|
  {
    if |a| > 0 {
      assert |b| == |multiset(b)| == |multiset(a)| == |a|;
      SortedHead(a);
      SortedHead(b);
      MinimumUnique(a[0], b[0], multiset(a));
      assert a == [a[0]] + a[1..] && b == [b[0]] + b[1..];
      assert multiset(a[1..]) == multiset(a) - multiset{a[0]};
      assert multiset(b[1..]) == multiset(b) - multiset{b[0]};
      SortedUnique(a[1..], b[1..]);
    }
  }

  /** Sortedness follows from the order of neighbours. */
  lemma {:induction false} SortedOfNeighbours(s: seq<Packet>)
    requires forall i :: 0 <= i < |s| - 1 ==> PacketLe(s[i], s[i + 1])
    ensures Sorted(s)
    decreases |s|
  {
    if |s| > 1 {
      SortedOfNeighbours(s[1..]);
      forall j | 0 < j < |s| ensures PacketLe(s[0], s[j]) {
        if j > 1 {
          assert PacketLe(s[1..][0], s[1..][j - 1]);
          PacketLeTransitive(s[0], s[1], s[j]);
        }
      }
      forall i, j | 0 <= i < j < |s| ensures PacketLe(s[i], s[j]) {
        if i > 0 {
          assert PacketLe(s[1..][i - 1], s[1..][j - 1]);
        }
      }
    }
  }

  function Payloads(s: seq<Packet>): (r: seq<string>)
    ensures |r| == |s| && forall i :: 0 <= i < |s| ==> r[i] == s[i].payload
  {
    if |s| == 0 then [] else [s[0].payload] + Payloads(s[1..])
  }

  // ---------------------------------------------------------------------------
  // The FIFO scheduler

  /** `fifo_scheduler`: a bounded `asyncio.Queue` of packets and the end marker. */
  class FifoScheduler {
    const maxsize: nat
    var queue: seq<Packet>
    var closed: bool

    ghost predicate Valid()
      reads this
    {
      1 <= maxsize && |queue| <= maxsize
    }

    constructor(maxsize: nat)
      requires maxsize >= 1
      ensures Valid() && this.maxsize == maxsize && queue == [] && !closed
    {
      this.maxsize := maxsize;
      queue := [];
      closed := false;
    }

    /** `put_nowait(pkt)`: appended, or dropped when the queue is full. */
    method Admit(pkt: Packet) returns (admitted: bool)
      requires Valid() && !closed
      modifies this
      ensures Valid() && !closed
      ensures admitted <==> |old(queue)| < maxsize
      ensures queue == if admitted then old(queue) + [pkt] else old(queue)
    {
      if |queue| < maxsize {
        queue := queue + [pkt];
        admitted := true;
      } else {
        admitted := false;
      }
    }

    /** `await put(None)`: the end marker is never dropped. */
    method Finish()
      requires Valid() && !closed
      modifies this
      ensures Valid() && closed && queue == old(queue)
    {
      closed := true;
    }

    /** One round of `deque_task_fn`: the head packet, or `None` once the marker is
        reached. `get` blocks on an empty queue, so the step needs a packet or the
        marker. */
    method Deliver() returns (r: Option<Packet>)
      requires Valid() && (|queue| > 0 || closed)
      modifies this
      ensures Valid() && closed == old(closed)
      ensures |old(queue)| == 0 ==> r == None && queue == old(queue)
      ensures |old(queue)| > 0 ==> r == Some(old(queue)[0]) && queue == old(queue)[1..]
    {
      if |queue| == 0 {
        r := None;
      } else {
        r := Some(queue[0]);
        queue := queue[1..];
      }
    }
  }

  /** `scheduler_fill_first(packets, fifo_scheduler)`: the first `maxsize` packets, in
      arrival order. */
  method FifoFillFirst(packets: seq<Packet>, maxsize: nat) returns (result: seq<Packet>)
    requires maxsize >= 1
    ensures result == packets[..Min(|packets|, maxsize)]
    ensures |packets| <= maxsize ==> result == packets
  {
    var s := new FifoScheduler(maxsize);
    var i := 0;
    while i < |packets|
      invariant 0 <= i <= |packets|
      invariant s.Valid() && !s.closed && s.maxsize == maxsize
      invariant s.queue == packets[..Min(i, maxsize)]
    {
      var admitted := s.Admit(packets[i]);
      i := i + 1;
    }
    s.Finish();
    result := [];
    var done := false;
    while !done
      invariant s.Valid() && s.closed
      invariant result + s.queue == packets[..Min(|packets|, maxsize)]
      invariant done ==> s.queue == []
      decreases |s.queue| + (if done then 0 else 1)
    {
      var r := s.Deliver();
      match r
      case None =>
        done := true;
      case Some(p) =>
        result := result + [p];
    }
    assert result == result + [];
  }

  // ---------------------------------------------------------------------------
  // The priority scheduler

  /** `priority_scheduler`: `pkt_heap`, and the bounded queue `pkt_wait` of signals
      (`True` per stored packet, then the end marker). The heap is kept as a multiset;
      `heapq` always hands over its least element. */
  class PriorityScheduler {
    const maxsize: nat
    var heap: multiset<Packet>
    var signals: nat
    var closed: bool

    ghost predicate Valid()
      reads this
    {
      1 <= maxsize && |heap| == signals <= maxsize
    }

    constructor(maxsize: nat)
      requires maxsize >= 1
      ensures Valid() && this.maxsize == maxsize && heap == multiset{} && !closed
    {
      this.maxsize := maxsize;
      heap := multiset{};
      signals := 0;
      closed := false;
    }

    /** `put_nowait(True)` then `heappush`: a full signal queue drops the packet before
        the heap is touched. */
    method Admit(pkt: Packet) returns (admitted: bool)
      requires Valid() && !closed
      modifies this
      ensures Valid() && !closed
      ensures admitted <==> old(signals) < maxsize
      ensures heap == if admitted then old(heap) + multiset{pkt} else old(heap)
    {
      if signals < maxsize {
        signals := signals + 1;
        heap := heap + multiset{pkt};
        admitted := true;
      } else {
        admitted := false;
      }
    }

    method Finish()
      requires Valid() && !closed
      modifies this
      ensures Valid() && closed && heap == old(heap)
    {
      closed := true;
    }

    /** One round of `deque_task_fn`: a signal, then `heappop`; the marker ends it. */
    method Deliver() returns (r: Option<Packet>)
      requires Valid() && (signals > 0 || closed)
      modifies this
      ensures Valid() && closed == old(closed)
      ensures old(signals) == 0 ==> r == None && heap == old(heap)
      ensures old(signals) > 0 ==>
                r.Some? && IsMinimum(r.value, old(heap)) && heap == old(heap) - multiset{r.value}
    {
      if signals == 0 {
        r := None;
      } else {
        MinimumExists(heap);
        var m :| m in heap && forall q :: q in heap ==> PacketLe(m, q);
        heap := heap - multiset{m};
        signals := signals - 1;
        r := Some(m);
      }
    }
  }

  /** `scheduler_fill_first(packets, priority_scheduler)`: the first `maxsize` packets,
      least first. */
  method PriorityFillFirst(packets: seq<Packet>, maxsize: nat) returns (result: seq<Packet>)
    requires maxsize >= 1
    ensures Sorted(result) && multiset(result) == multiset(packets[..Min(|packets|, maxsize)])
  {
    var s := new PriorityScheduler(maxsize);
    AdmitAll(s, packets);
    s.Finish();
    result := DrainAll(s);
  }

  /** The producer side of the harness: every packet offered in order. */
  method AdmitAll(s: PriorityScheduler, packets: seq<Packet>)
    requires s.Valid() && !s.closed && s.heap == multiset{}
    modifies s
    ensures s.Valid() && !s.closed
    ensures s.heap == multiset(packets[..Min(|packets|, s.maxsize)])
  {
    var i := 0;
    while i < |packets|
      invariant 0 <= i <= |packets|
      invariant s.Valid() && !s.closed
      invariant s.heap == multiset(packets[..Min(i, s.maxsize)])
    {
      assert packets[..i + 1] == packets[..i] + [packets[i]];
      var admitted := s.Admit(packets[i]);
      i := i + 1;
    }
  }

  /** The consumer side once the marker is queued: the whole heap, least first. */
  method DrainAll(s: PriorityScheduler) returns (result: seq<Packet>)
    requires s.Valid() && s.closed
    modifies s
    ensures s.Valid() && s.heap == multiset{}
    ensures Sorted(result) && multiset(result) == old(s.heap)
  {
    result := [];
    var done := false;
    while !done
      invariant s.Valid() && s.closed
      invariant multiset(result) + s.heap == old(s.heap)
      invariant Sorted(result)
      invariant forall i, q :: 0 <= i < |result| && q in s.heap ==> PacketLe(result[i], q)
      invariant done ==> s.heap == multiset{}
      decreases s.signals + (if done then 0 else 1)
    {
      ghost var before := s.heap;
      var r := s.Deliver();
      match r
      case None =>
        done := true;
      case Some(p) =>
        forall i, q | 0 <= i < |result| + 1 && q in s.heap ensures PacketLe((result + [p])[i], q) {
          assert q in before;
        }
        result := result + [p];
    }
  }

  // ---------------------------------------------------------------------------
  // The unit tests of the source

  const TestPackets: seq<Packet> := [
    Packet(Low, "192.168.1.1", "192.168.2.1", "Data Packet 1"),
    Packet(Low, "192.168.1.2", "192.168.2.2", "Data Packet 2"),
    Packet(High, "192.168.3.1", "192.168.4.1", "VOIP Packet 1"),
    Packet(Medium, "192.168.5.1", "192.168.6.1", "Video Packet 1"),
    Packet(High, "192.168.7.1", "192.168.8.1", "VOIP Packet 2")
  ]

  /** `test_fifo_scheduler`: the payloads in input order. */
  lemma FifoTestVector(result: seq<Packet>)
    requires result == TestPackets[..Min(|TestPackets|, 1024)]
    ensures Payloads(result) == ["Data Packet 1", "Data Packet 2", "VOIP Packet 1", "Video Packet 1", "VOIP Packet 2"]
  {
    assert result == TestPackets;
  }

  /** `test_priority_scheduler`: the payloads sorted by priority, ties in input order. */
  lemma PriorityTestVector(result: seq<Packet>)
    requires Sorted(result) && multiset(result) == multiset(TestPackets[..Min(|TestPackets|, 1024)])
    ensures Payloads(result) == ["VOIP Packet 1", "VOIP Packet 2", "Video Packet 1", "Data Packet 1", "Data Packet 2"]
  {
    assert TestPackets[..Min(|TestPackets|, 1024)] == TestPackets;
    TestPacketsInOrder(TestPackets);
    var t := TestPackets;
    SortedInPriorityOrder(t[0], t[1], t[2], t[3], t[4], result);
    PayloadsOfFive(t[2], t[4], t[3], t[0], t[1]);
  }

  /** The order of the test packets: the two VOIP packets by source address, then
      the video packet, then the two data packets by source address. */
  lemma TestPacketsInOrder(t: seq<Packet>)
    requires t == TestPackets
    ensures PacketLe(t[2], t[4]) && PacketLe(t[4], t[3]) && PacketLe(t[3], t[0]) && PacketLe(t[0], t[1])
  {
    VoipBeforeVoip(t);
    VoipBeforeVideo(t);
    VideoBeforeData(t);
    DataBeforeData(t);
  }
  lemma VoipBeforeVoip(t: seq<Packet>)
    requires t == TestPackets
    ensures PacketLe(t[2], t[4])
  {
    SourceOrdered(t[2], t[4], "192.168.3.1", "192.168.7.1", 8);
  }
  lemma VoipBeforeVideo(t: seq<Packet>)
    requires t == TestPackets
    ensures PacketLe(t[4], t[3])
  {
  }
  lemma VideoBeforeData(t: seq<Packet>)
    requires t == TestPackets
    ensures PacketLe(t[3], t[0])
  {
  }
  lemma DataBeforeData(t: seq<Packet>)
    requires t == TestPackets
    ensures PacketLe(t[0], t[1])
  {
    SourceOrdered(t[0], t[1], "192.168.1.1", "192.168.1.2", 10);
  }

  lemma SourceOrdered(p: Packet, q: Packet, a: string, b: string, k: nat)
    requires p.priority == q.priority && p.sourceIp == a && q.sourceIp == b
    requires k < |a| && k < |b| && a[..k] == b[..k] && a[k] < b[k]
    ensures PacketLe(p, q)
  {
    StrLtAt(p.sourceIp, q.sourceIp, k);
  }

  lemma SortedInPriorityOrder(p0: Packet, p1: Packet, p2: Packet, p3: Packet, p4: Packet, result: seq<Packet>)
    requires PacketLe(p2, p4) && PacketLe(p4, p3) && PacketLe(p3, p0) && PacketLe(p0, p1)
    requires Sorted(result) && multiset(result) == multiset([p0, p1, p2, p3, p4])
    ensures result == [p2, p4, p3, p0, p1]
  {
    SortedOfFive(p2, p4, p3, p0, p1);
    FivePermutation(p0, p1, p2, p3, p4);
    SortedUnique(result, [p2, p4, p3, p0, p1]);
  }

  lemma SortedOfFive(p0: Packet, p1: Packet, p2: Packet, p3: Packet, p4: Packet)
    requires PacketLe(p0, p1) && PacketLe(p1, p2) && PacketLe(p2, p3) && PacketLe(p3, p4)
    ensures Sorted([p0, p1, p2, p3, p4])
  {
    var s := [p0, p1, p2, p3, p4];
    assert forall i :: 0 <= i < |s| - 1 ==> PacketLe(s[i], s[i + 1]);
    SortedOfNeighbours(s);
  }

  lemma FivePermutation(p0: Packet, p1: Packet, p2: Packet, p3: Packet, p4: Packet)
    ensures multiset([p2, p4, p3, p0, p1]) == multiset([p0, p1, p2, p3, p4])
  {
    MultisetOfFive(p0, p1, p2, p3, p4);
    ReorderFive(p0, p1, p2, p3, p4);
    MultisetOfFive(p2, p4, p3, p0, p1);
  }

  lemma MultisetOfFive<T>(p0: T, p1: T, p2: T, p3: T, p4: T)
    ensures multiset([p0, p1, p2, p3, p4]) == multiset{p0, p1, p2, p3, p4}
  {
  }

  lemma ReorderFive<T>(p0: T, p1: T, p2: T, p3: T, p4: T)
    ensures multiset{p2, p4, p3, p0, p1} == multiset{p0, p1, p2, p3, p4}
  {
  }

  lemma PayloadsOfFive(p0: Packet, p1: Packet, p2: Packet, p3: Packet, p4: Packet)
    ensures Payloads([p0, p1, p2, p3, p4]) == [p0.payload, p1.payload, p2.payload, p3.payload, p4.payload]
  {
  }
}
