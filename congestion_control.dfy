/** The round-based TCP congestion-window simulation
    (assignment-5-arq-and-congestion-control/congestion_control.py): slow start,
    congestion avoidance and the timeout reset, one update per transmission round,
    in the spirit of section 3.1 of RFC 5681. */
module CongestionControl {
  import opened Numbers

  /** The two integers the simulation updates: the congestion window and the
      slow-start threshold, both in MSS. */
  datatype State = State(cwnd: int, ssthresh: int)

  /** `cwnd = 1`, `ssthresh = initial_ssthresh`. */
  function Initial(initialSsthresh: int): (s: State)
    ensures s.cwnd == 1 && s.ssthresh == initialSsthresh
  {
    State(1, initialSsthresh)
  }

  /** One round's update. On a loss, multiplicative decrease: the threshold becomes half
      the window (at least 2) and the window restarts at 1. Otherwise the window doubles
      below the threshold (it may overshoot it) and grows by one at or above it. Python's
      `//` by 2 and Dafny's `/` by 2 agree on every integer. */
  function Update(s: State, lost: bool): (t: State)
    ensures lost ==> t.cwnd == 1 && t.ssthresh >= 2 && t.ssthresh >= s.cwnd / 2
    ensures !lost ==> t.ssthresh == s.ssthresh
    ensures !lost && s.cwnd >= 1 ==> s.cwnd < t.cwnd <= 2 * s.cwnd
    ensures lost ==> t == State(1, Max(s.cwnd / 2, 2))
    ensures !lost && s.cwnd < s.ssthresh ==> t.cwnd == 2 * s.cwnd
    ensures !lost && s.cwnd >= s.ssthresh ==> t.cwnd == s.cwnd + 1
  {
    if lost then State(1, Max(s.cwnd / 2, 2))
    else if s.cwnd < s.ssthresh then State(s.cwnd * 2, s.ssthresh)
    else State(s.cwnd + 1, s.ssthresh)
  }

  /** Round `round_num` (0-based) is lost when `round_num + 1` is listed. */
  predicate LostIn(roundNum: nat, lossEvents: seq<int>)
  {
    roundNum + 1 in lossEvents
  }

  /** The state after the first `rounds` rounds. */
  function StateAfter(rounds: nat, initialSsthresh: int, lossEvents: seq<int>): State
  {
    if rounds == 0 then Initial(initialSsthresh)
    else Update(StateAfter(rounds - 1, initialSsthresh, lossEvents), LostIn(rounds - 1, lossEvents))
  }

  /** `cwnd_history` after the first `rounds` rounds: each round records the window it
      starts with. */
  function History(rounds: nat, initialSsthresh: int, lossEvents: seq<int>): (h: seq<int>)
    ensures |h| == rounds
  {
    if rounds == 0 then []
    else History(rounds - 1, initialSsthresh, lossEvents) + [StateAfter(rounds - 1, initialSsthresh, lossEvents).cwnd]
  }

  /** `tcp_congestion_control_simulation` without the printing and plotting: the
      history of windows and the final state. `range` of a negative count is empty. */
  method Simulate(totalRoundsCount: int, initialSsthresh: int, lossEvents: seq<int>)
    returns (cwndHistory: seq<int>, cwnd: int, ssthresh: int)
    ensures |cwndHistory| == Max(totalRoundsCount, 0)
    ensures cwndHistory == History(Max(totalRoundsCount, 0), initialSsthresh, lossEvents)
    ensures State(cwnd, ssthresh) == StateAfter(Max(totalRoundsCount, 0), initialSsthresh, lossEvents)
  {
    cwnd := 1;
    ssthresh := initialSsthresh;
    cwndHistory := [];
    var roundNum := 0;
    while roundNum < totalRoundsCount
      invariant 0 <= roundNum <= Max(totalRoundsCount, 0)
      invariant cwndHistory == History(roundNum, initialSsthresh, lossEvents)
      invariant State(cwnd, ssthresh) == StateAfter(roundNum, initialSsthresh, lossEvents)
    {
      cwndHistory := cwndHistory + [cwnd];
      if roundNum + 1 in lossEvents {
        ssthresh := Max(cwnd / 2, 2);
        cwnd := 1;
      } else if cwnd < ssthresh {
        cwnd := cwnd * 2;
      } else {
        cwnd := cwnd + 1;
      }
      roundNum := roundNum + 1;
    }
  }

  /** The window is at least one MSS in every round. */
  lemma {:induction false} CwndAtLeastOne(rounds: nat, initialSsthresh: int, lossEvents: seq<int>)
    ensures StateAfter(rounds, initialSsthresh, lossEvents).cwnd >= 1
  {
    if rounds > 0 {
      CwndAtLeastOne(rounds - 1, initialSsthresh, lossEvents);
    }
  }

  /** Entry `i` of the history is the window at the start of round `i`. */
  lemma {:induction false} HistoryEntry(rounds: nat, i: nat, initialSsthresh: int, lossEvents: seq<int>)
    requires i < rounds
    ensures History(rounds, initialSsthresh, lossEvents)[i] == StateAfter(i, initialSsthresh, lossEvents).cwnd
  {
    if i < rounds - 1 {
      HistoryEntry(rounds - 1, i, initialSsthresh, lossEvents);
    }
  }

  /** A loss in round `r` leaves the window at 1 and the threshold at half the window
      recorded for that round, but never below 2. */
  lemma LossResets(r: nat, initialSsthresh: int, lossEvents: seq<int>)
    requires LostIn(r, lossEvents)
    ensures StateAfter(r + 1, initialSsthresh, lossEvents).cwnd == 1
    ensures StateAfter(r + 1, initialSsthresh, lossEvents).ssthresh
            == Max(History(r + 1, initialSsthresh, lossEvents)[r] / 2, 2)
  {
    HistoryEntry(r + 1, r, initialSsthresh, lossEvents);
  }

  /** Between losses the threshold does not move. */
  lemma {:induction false} SsthreshKept(j: nat, k: nat, initialSsthresh: int, lossEvents: seq<int>)
    requires j <= k
    requires forall r :: j <= r < k ==> !LostIn(r, lossEvents)
    ensures StateAfter(k, initialSsthresh, lossEvents).ssthresh == StateAfter(j, initialSsthresh, lossEvents).ssthresh
  {
    if j < k {
      SsthreshKept(j, k - 1, initialSsthresh, lossEvents);
    }
  }

  /** Once a loss has happened the threshold stays at 2 or more. */
  lemma {:induction false} SsthreshAfterLoss(r: nat, k: nat, initialSsthresh: int, lossEvents: seq<int>)
    requires r < k && LostIn(r, lossEvents)
    ensures StateAfter(k, initialSsthresh, lossEvents).ssthresh >= 2
  {
    if k > r + 1 {
      SsthreshAfterLoss(r, k - 1, initialSsthresh, lossEvents);
    }
  }

  /** Between losses the window grows by at least one MSS per round. */
  lemma {:induction false} LossFreeGrowth(j: nat, k: nat, initialSsthresh: int, lossEvents: seq<int>)
    requires j <= k
    requires forall r :: j <= r < k ==> !LostIn(r, lossEvents)
    ensures StateAfter(k, initialSsthresh, lossEvents).cwnd >= StateAfter(j, initialSsthresh, lossEvents).cwnd + (k - j)
  {
    if j < k {
      LossFreeGrowth(j, k - 1, initialSsthresh, lossEvents);
      CwndAtLeastOne(k - 1, initialSsthresh, lossEvents);
    }
  }

  /** The run of the script: 25 rounds, threshold 16, timeouts in rounds 8 and 17. */
  lemma ScriptRun(t: int, l: seq<int>)
    requires t == 16 && l == [8, 17]
    ensures History(25, t, l) ==
            [1, 2, 4, 8, 16, 17, 18, 19, 1, 2, 4, 8, 16, 17, 18, 19, 20, 1, 2, 4, 8, 16, 17, 18, 19]
  {
    ScriptUntilFirstLoss(t, l);
    ScriptUntilSecondLoss(t, l);
    ScriptToEnd(t, l);
  }

  /** Rounds 1 to 8: slow start to 16, then linear growth, then the first timeout. */
  lemma ScriptUntilFirstLoss(t: int, l: seq<int>)
    requires t == 16 && l == [8, 17]
    ensures StateAfter(8, t, l) == State(1, 9)
    ensures History(8, t, l) == [1, 2, 4, 8, 16, 17, 18, 19]
  {
    assert StateAfter(1, t, l) == State(2, 16);
    assert History(1, t, l) == History(0, t, l) + [1];
    assert StateAfter(2, t, l) == State(4, 16);
    assert History(2, t, l) == History(1, t, l) + [2];
    assert StateAfter(3, t, l) == State(8, 16);
    assert History(3, t, l) == History(2, t, l) + [4];
    assert StateAfter(4, t, l) == State(16, 16);
    assert History(4, t, l) == History(3, t, l) + [8];
    assert StateAfter(5, t, l) == State(17, 16);
    assert History(5, t, l) == History(4, t, l) + [16];
    assert StateAfter(6, t, l) == State(18, 16);
    assert History(6, t, l) == History(5, t, l) + [17];
    assert StateAfter(7, t, l) == State(19, 16);
    assert History(7, t, l) == History(6, t, l) + [18];
    assert StateAfter(8, t, l) == State(1, 9);
    assert History(8, t, l) == History(7, t, l) + [19];
  }

  /** Rounds 9 to 17: slow start overshoots the threshold 9, then the second timeout. */
  lemma ScriptUntilSecondLoss(t: int, l: seq<int>)
    requires t == 16 && l == [8, 17]
    requires StateAfter(8, t, l) == State(1, 9)
    requires History(8, t, l) == [1, 2, 4, 8, 16, 17, 18, 19]
    ensures StateAfter(17, t, l) == State(1, 10)
    ensures History(17, t, l) == [1, 2, 4, 8, 16, 17, 18, 19, 1, 2, 4, 8, 16, 17, 18, 19, 20]
  {
    assert StateAfter(9, t, l) == State(2, 9);
    assert History(9, t, l) == History(8, t, l) + [1];
    assert StateAfter(10, t, l) == State(4, 9);
    assert History(10, t, l) == History(9, t, l) + [2];
    assert StateAfter(11, t, l) == State(8, 9);
    assert History(11, t, l) == History(10, t, l) + [4];
    assert StateAfter(12, t, l) == State(16, 9);
    assert History(12, t, l) == History(11, t, l) + [8];
    assert StateAfter(13, t, l) == State(17, 9);
    assert History(13, t, l) == History(12, t, l) + [16];
    assert StateAfter(14, t, l) == State(18, 9);
    assert History(14, t, l) == History(13, t, l) + [17];
    assert StateAfter(15, t, l) == State(19, 9);
    assert History(15, t, l) == History(14, t, l) + [18];
    assert StateAfter(16, t, l) == State(20, 9);
    assert History(16, t, l) == History(15, t, l) + [19];
    assert StateAfter(17, t, l) == State(1, 10);
    assert History(17, t, l) == History(16, t, l) + [20];
  }

  /** Rounds 18 to 25: slow start to 16 under threshold 10, then linear growth. */
  lemma ScriptToEnd(t: int, l: seq<int>)
    requires t == 16 && l == [8, 17]
    requires StateAfter(17, t, l) == State(1, 10)
    requires History(17, t, l) == [1, 2, 4, 8, 16, 17, 18, 19, 1, 2, 4, 8, 16, 17, 18, 19, 20]
    ensures StateAfter(25, t, l) == State(20, 10)
    ensures History(25, t, l) == [1, 2, 4, 8, 16, 17, 18, 19, 1, 2, 4, 8, 16, 17, 18, 19, 20, 1, 2, 4, 8, 16, 17, 18, 19]
  {
    assert StateAfter(18, t, l) == State(2, 10);
    assert History(18, t, l) == History(17, t, l) + [1];
    assert StateAfter(19, t, l) == State(4, 10);
    assert History(19, t, l) == History(18, t, l) + [2];
    assert StateAfter(20, t, l) == State(8, 10);
    assert History(20, t, l) == History(19, t, l) + [4];
    assert StateAfter(21, t, l) == State(16, 10);
    assert History(21, t, l) == History(20, t, l) + [8];
    assert StateAfter(22, t, l) == State(17, 10);
    assert History(22, t, l) == History(21, t, l) + [16];
    assert StateAfter(23, t, l) == State(18, 10);
    assert History(23, t, l) == History(22, t, l) + [17];
    assert StateAfter(24, t, l) == State(19, 10);
    assert History(24, t, l) == History(23, t, l) + [18];
    assert StateAfter(25, t, l) == State(20, 10);
    assert History(25, t, l) == History(24, t, l) + [19];
  }
}
