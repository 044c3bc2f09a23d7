/** The Go-Back-N sender simulation
    (assignment-5-arq-and-congestion-control/go_back_n.py). The random loss test of
    each frame is replaced by a supplied loss oracle: draw `k` (the `k`-th call of
    `random.random()`, counted from 0) reports a loss when `oracle[k]` holds; draws
    past the end of the oracle report no loss. */
module GoBackN {
  import opened Wrappers

  import opened Numbers

  /** Whether draw `k` loses its frame. */
  predicate Drawn(oracle: seq<bool>, k: nat)
  {
    k < |oracle| && oracle[k]
  }

  /** The frames `lo`, ..., `hi - 1` in order. */
  function Range(lo: nat, hi: nat): (r: seq<nat>)
    ensures |r| == if lo <= hi then hi - lo else 0
    ensures forall i :: 0 <= i < |r| ==> r[i] == lo + i
    decreases hi - lo
  {
    if lo >= hi then [] else [lo] + Range(lo + 1, hi)
  }

  /** Whether frame `i` is lost in a scan that starts at frame `lo` with draw `pos`. */
  predicate LostAt(oracle: seq<bool>, pos: nat, lo: nat, i: nat)
    requires lo <= i
  {
    Drawn(oracle, pos + (i - lo))
  }

  /** The loss scan `for i in range(lo, hi)` with `break`: the first frame whose draw,
      taken in order from draw `pos`, reports a loss. */
  function FirstLoss(oracle: seq<bool>, pos: nat, lo: nat, hi: nat): (r: Option<nat>)
    ensures r.Some? ==> lo <= r.value < hi && LostAt(oracle, pos, lo, r.value)
    ensures r.Some? ==> forall i :: lo <= i < r.value ==> !LostAt(oracle, pos, lo, i)
    ensures r.None? ==> forall i :: lo <= i < hi ==> !LostAt(oracle, pos, lo, i)
    decreases hi - lo
  {
    if lo >= hi then None
    else if Drawn(oracle, pos) then Some(lo)
    else
      var r := FirstLoss(oracle, pos + 1, lo + 1, hi);
      assert forall i :: lo < i < hi ==> LostAt(oracle, pos + 1, lo + 1, i) == LostAt(oracle, pos, lo, i);
      r
  }

  /** The sender's variables `base` and `next_seq_num`, and the number of draws made. */
  datatype Sender = Sender(base: nat, next: nat, draws: nat)

  /** What holds at every head of the outer loop. */
  predicate Inv(s: Sender, windowSize: nat, total: nat)
  {
    s.base <= s.next <= total && s.next <= s.base + windowSize
  }

  /** `next_seq_num` after the send phase: the inner loop sends up to the end of the
      window or the last frame. */
  function WindowEnd(s: Sender, windowSize: nat, total: nat): (e: nat)
    requires Inv(s, windowSize, total)
    ensures e == Min(s.base + windowSize, total) && s.next <= e
  {
    Max(s.next, Min(s.base + windowSize, total))
  }

  /** One pass of the outer loop: send, scan for the first loss, then go back to the
      lost frame or slide the window to `next_seq_num`. */
  function Round(s: Sender, windowSize: nat, total: nat, oracle: seq<bool>): (t: Sender)
    requires Inv(s, windowSize, total)
    ensures Inv(t, windowSize, total)
    ensures t.base >= s.base && t.draws >= s.draws
    ensures t.base == s.base ==>
              (t.base == WindowEnd(s, windowSize, total) ||
               (t.next < WindowEnd(s, windowSize, total) && t.draws > s.draws && t.draws <= |oracle|))
    ensures t.base != s.base ==> t.base == t.next == WindowEnd(s, windowSize, total)
    ensures var e := WindowEnd(s, windowSize, total);
            var l := FirstLoss(oracle, s.draws, s.base, e);
            (l.Some? ==> t == Sender(s.base, l.value, s.draws + (l.value - s.base) + 1)) &&
            (l.None? ==> t == Sender(e, e, s.draws + (e - s.base)))
  {
    var e := WindowEnd(s, windowSize, total);
    match FirstLoss(oracle, s.draws, s.base, e)
    case Some(i) => Sender(s.base, i, s.draws + (i - s.base) + 1)
    case None => Sender(e, e, s.draws + (e - s.base))
  }

  /** A round made while frames are outstanding either slides the window forward or
      consumes at least one draw that reported a loss. */
  lemma RoundProgress(s: Sender, windowSize: nat, total: nat, oracle: seq<bool>)
    requires Inv(s, windowSize, total) && windowSize >= 1 && s.base < total
    ensures var t := Round(s, windowSize, total, oracle);
            t.base > s.base || (t.base == s.base && s.draws < t.draws <= |oracle|)
  {
  }

  /** The final state and the frames transmitted, in order, from state `s` on. */
  datatype Outcome = Outcome(final: Sender, sent: seq<nat>)

  function Run(s: Sender, windowSize: nat, total: nat, oracle: seq<bool>): (r: Outcome)
    requires Inv(s, windowSize, total) && windowSize >= 1
    ensures r.final.base == r.final.next == total
    decreases total - s.base, |oracle| - Min(s.draws, |oracle|)
  {
    if s.base >= total then Outcome(s, [])
    else
      var t := Round(s, windowSize, total, oracle);
      RoundProgress(s, windowSize, total, oracle);
      var rest := Run(t, windowSize, total, oracle);
      Outcome(rest.final, Range(s.next, WindowEnd(s, windowSize, total)) + rest.sent)
  }

  /** `go_back_n_simulation` without the printing and the sleeps: the frames sent, in
      order, and the final `base` and `next_seq_num`. A window of 0 or less never sends
      and loops for ever when there are frames, so the window is required to be
      positive. */
  method Simulate(totalFramesCount: int, windowSize: int, oracle: seq<bool>)
    returns (sent: seq<nat>, base: nat, nextSeqNum: nat)
    requires windowSize >= 1
    ensures base == nextSeqNum == Max(totalFramesCount, 0)
    ensures sent == Run(Sender(0, 0, 0), windowSize, Max(totalFramesCount, 0), oracle).sent
  {
    var total: nat := Max(totalFramesCount, 0);
    ghost var whole := Run(Sender(0, 0, 0), windowSize, total, oracle).sent;
    base := 0;
    nextSeqNum := 0;
    var draws: nat := 0;
    sent := [];
    while base < totalFramesCount
      invariant Inv(Sender(base, nextSeqNum, draws), windowSize, total)
      invariant sent + Run(Sender(base, nextSeqNum, draws), windowSize, total, oracle).sent == whole
      decreases total - base, |oracle| - Min(draws, |oracle|)
    {
      ghost var s := Sender(base, nextSeqNum, draws);
      RoundProgress(s, windowSize, total, oracle);
      var now;
      now, base, nextSeqNum, draws := Transmit(base, nextSeqNum, draws, windowSize, total, oracle);
      sent := sent + now;
    }
  }

  /** One pass of the outer loop as the source runs it: the send loop, the loss scan,
      and the go-back or the slide. */
  method Transmit(base: nat, next: nat, draws: nat, windowSize: nat, total: nat, oracle: seq<bool>)
    returns (sent: seq<nat>, base': nat, next': nat, draws': nat)
    requires Inv(Sender(base, next, draws), windowSize, total)
    ensures sent == Range(next, WindowEnd(Sender(base, next, draws), windowSize, total))
    ensures Sender(base', next', draws') == Round(Sender(base, next, draws), windowSize, total, oracle)
  {
    sent, next' := SendWindow(base, next, windowSize, total);
    var lostFrame;
    lostFrame, draws' := ScanForLoss(base, next', draws, oracle);
    if lostFrame != -1 {
      base', next' := base, lostFrame;
    } else {
      base' := next';
    }
  }

  /** The send loop: every frame from `next_seq_num` to the end of the window. */
  method SendWindow(base: nat, next: nat, windowSize: nat, total: nat) returns (sent: seq<nat>, next': nat)
    requires Inv(Sender(base, next, 0), windowSize, total)
    ensures next' == WindowEnd(Sender(base, next, 0), windowSize, total)
    ensures sent == Range(next, next')
  {
    ghost var e := WindowEnd(Sender(base, next, 0), windowSize, total);
    sent := [];
    next' := next;
    while next' < base + windowSize && next' < total
      invariant next <= next' <= e
      invariant sent == Range(next, next')
    {
      RangeSplit(next, next', next' + 1);
      sent := sent + [next'];
      next' := next' + 1;
    }
  }

  /** The loss scan over frames `base` to `next - 1`, one draw per frame, stopping at
      the first loss; `-1` when there is none. */
  method ScanForLoss(base: nat, next: nat, draws: nat, oracle: seq<bool>) returns (lostFrame: int, draws': nat)
    requires base <= next
    ensures lostFrame == -1 <==> FirstLoss(oracle, draws, base, next).None?
    ensures lostFrame != -1 ==> lostFrame >= base && FirstLoss(oracle, draws, base, next) == Some(lostFrame as nat) &&
                                draws' == draws + (lostFrame - base) + 1
    ensures lostFrame == -1 ==> draws' == draws + (next - base)
  {
    lostFrame := -1;
    var i := base;
    draws' := draws;
    while i < next
      invariant base <= i <= next && draws' == draws + (i - base)
      invariant FirstLoss(oracle, draws, base, next) == FirstLoss(oracle, draws', i, next)
    {
      var lost := draws' < |oracle| && oracle[draws'];
      draws' := draws' + 1;
      if lost {
        lostFrame := i;
        break;
      }
      i := i + 1;
    }
  }

  /** Every frame is transmitted at least once: the frames from `next_seq_num` on all
      appear in the rest of the run. */
  lemma {:induction false} EveryFrameSent(s: Sender, windowSize: nat, total: nat, oracle: seq<bool>, f: nat)
    requires Inv(s, windowSize, total) && windowSize >= 1
    requires s.next <= f < total
    ensures f in Run(s, windowSize, total, oracle).sent
    decreases total - s.base, |oracle| - Min(s.draws, |oracle|)
  {
    var t := Round(s, windowSize, total, oracle);
    RoundProgress(s, windowSize, total, oracle);
    var e := WindowEnd(s, windowSize, total);
    var now := Range(s.next, e);
    if f < e {
      assert now[f - s.next] == f;
    } else {
      EveryFrameSent(t, windowSize, total, oracle, f);
    }
    assert Run(s, windowSize, total, oracle).sent == now + Run(t, windowSize, total, oracle).sent;
  }

  /** Without losses each frame is transmitted exactly once, in order. */
  lemma {:induction false} LossFreeRun(s: Sender, windowSize: nat, total: nat, oracle: seq<bool>)
    requires Inv(s, windowSize, total) && windowSize >= 1
    requires s.base == s.next
    requires forall k :: 0 <= k < |oracle| ==> !oracle[k]
    ensures Run(s, windowSize, total, oracle).sent == Range(s.next, total)
    decreases total - s.base
  {
    if s.base < total {
      var t := Round(s, windowSize, total, oracle);
      var e := WindowEnd(s, windowSize, total);
      assert FirstLoss(oracle, s.draws, s.base, e).None?;
      LossFreeRun(t, windowSize, total, oracle);
      RangeSplit(s.next, e, total);
    }
  }

  lemma {:induction false} RangeSplit(lo: nat, mid: nat, hi: nat)
    requires lo <= mid <= hi
    ensures Range(lo, mid) + Range(mid, hi) == Range(lo, hi)
  {
    assert |Range(lo, mid) + Range(mid, hi)| == |Range(lo, hi)|;
    forall i | 0 <= i < |Range(lo, hi)|
      ensures (Range(lo, mid) + Range(mid, hi))[i] == Range(lo, hi)[i]
    {
      if i < mid - lo {
      } else {
        assert (Range(lo, mid) + Range(mid, hi))[i] == Range(mid, hi)[i - (mid - lo)];
      }
    }
  }

  /** The script's window of 4 over 10 frames when no frame is lost: frames 0 to 9,
      each once. */
  lemma ScriptRunWithoutLoss(oracle: seq<bool>)
    requires forall k :: 0 <= k < |oracle| ==> !oracle[k]
    ensures Run(Sender(0, 0, 0), 4, 10, oracle).sent == [0, 1, 2, 3, 4, 5, 6, 7, 8, 9]
  {
    LossFreeRun(Sender(0, 0, 0), 4, 10, oracle);
    FirstTenFrames(10);
  }

  lemma FirstTenFrames(n: nat)
    requires n == 10
    ensures Range(0, n) == [0, 1, 2, 3, 4, 5, 6, 7, 8, 9]
  {
    var r := Range(0, n);
    assert r[0] == 0 && r[1] == 1 && r[2] == 2 && r[3] == 3 && r[4] == 4;
    assert r[5] == 5 && r[6] == 6 && r[7] == 7 && r[8] == 8 && r[9] == 9;
  }

  /** Losing frame 1 of the first window: the scan stops at the lost frame after two
      draws, and the sender goes back to frame 1 with `base` unchanged. */
  lemma GoesBackToLostFrame(oracle: seq<bool>)
    requires |oracle| >= 2 && !oracle[0] && oracle[1]
    ensures Round(Sender(0, 0, 0), 4, 10, oracle) == Sender(0, 1, 2)
  {
    assert FirstLoss(oracle, 0, 0, 4) == FirstLoss(oracle, 1, 1, 4);
  }

  /** The same run on the wire: frames 0 to 3, then 1 to 3 again. */
  lemma LostFrameResent(oracle: seq<bool>)
    requires |oracle| >= 2 && !oracle[0] && oracle[1]
    ensures var sent := Run(Sender(0, 0, 0), 4, 10, oracle).sent;
            |sent| >= 7 && sent[..4] == [0, 1, 2, 3] && sent[4..7] == [1, 2, 3]
  {
    assert FirstLoss(oracle, 0, 0, 4) == FirstLoss(oracle, 1, 1, 4);
    ResendsFromLostFrame(Sender(0, 0, 0), 4, 10, oracle, 1);
    RangeAsList(0, 4);
    RangeAsList(1, 3);
  }

  /** A pass that finds frame `i` lost goes back to it: the run sends the window from
      `next`, then the same window again from frame `i`. */
  lemma ResendsFromLostFrame(s: Sender, windowSize: nat, total: nat, oracle: seq<bool>, i: nat)
    requires Inv(s, windowSize, total) && windowSize >= 1 && s.base < total
    requires FirstLoss(oracle, s.draws, s.base, WindowEnd(s, windowSize, total)) == Some(i)
    ensures var e := WindowEnd(s, windowSize, total);
            var sent := Run(s, windowSize, total, oracle).sent;
            |sent| >= (e - s.next) + (e - i) &&
            sent[..e - s.next] == Range(s.next, e) &&
            sent[e - s.next..(e - s.next) + (e - i)] == Range(i, e)
  {
    var e := WindowEnd(s, windowSize, total);
    var t := Round(s, windowSize, total, oracle);
    assert t == Sender(s.base, i, s.draws + (i - s.base) + 1);
    assert WindowEnd(t, windowSize, total) == e;
    var rest := RunTwoPasses(s, windowSize, total, oracle);
    SliceOfConcat(Range(s.next, e), Range(i, e), rest);
  }

  /** Two passes of a run whose first pass leaves `base` where it was: the frames of
      each pass, then the rest of the run. */
  lemma RunTwoPasses(s: Sender, windowSize: nat, total: nat, oracle: seq<bool>) returns (rest: seq<nat>)
    requires Inv(s, windowSize, total) && windowSize >= 1 && s.base < total
    requires Round(s, windowSize, total, oracle).base == s.base
    ensures var t := Round(s, windowSize, total, oracle);
            Run(s, windowSize, total, oracle).sent
              == Range(s.next, WindowEnd(s, windowSize, total))
                 + (Range(t.next, WindowEnd(t, windowSize, total)) + rest)
  {
    var t := Round(s, windowSize, total, oracle);
    RunUnfold(s, windowSize, total, oracle);
    RunUnfold(t, windowSize, total, oracle);
    rest := Run(Round(t, windowSize, total, oracle), windowSize, total, oracle).sent;
  }

  lemma SliceOfConcat<T>(a: seq<T>, b: seq<T>, c: seq<T>)
    ensures var s := a + (b + c);
            s[..|a|] == a && s[|a|..|a| + |b|] == b
  {
    var s := a + (b + c);
    assert s[|a|..] == b + c;
  }

  /** A run that has frames left starts with the frames its first pass sends. */
  lemma RunUnfold(s: Sender, windowSize: nat, total: nat, oracle: seq<bool>)
    requires Inv(s, windowSize, total) && windowSize >= 1 && s.base < total
    ensures Run(s, windowSize, total, oracle).sent
              == Range(s.next, WindowEnd(s, windowSize, total))
                 + Run(Round(s, windowSize, total, oracle), windowSize, total, oracle).sent
  {
  }

  lemma RangeAsList(lo: nat, n: nat)
    requires n == 3 || n == 4
    ensures n == 3 ==> Range(lo, lo + n) == [lo, lo + 1, lo + 2]
    ensures n == 4 ==> Range(lo, lo + n) == [lo, lo + 1, lo + 2, lo + 3]
  {
    var r := Range(lo, lo + n);
    assert r[0] == lo && r[1] == lo + 1 && r[2] == lo + 2;
  }
}
