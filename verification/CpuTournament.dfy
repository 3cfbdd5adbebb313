/**
 The tournament between CPU policies (qosCpuAdaptive, qos/manager/manage_cpu.go:87-175): each policy
 is installed in turn, read once, and the one with the leftmost least reading wins the round; a
 policy that wins often enough in a row is kept for good.
 */
module CpuTournament {

  const WIN_THRESHOLD := 5

  /** What the timer finds: no metric data, several metrics, or the mean of the one metric. */
  datatype Event = NoData | SeveralMetrics | Reading(value: real)

  datatype Phase = Trying | Final | Abandoned

  /** The finished rounds, each indexed by candidate, and the readings of the running round in the order taken. */
  datatype Log = Log(rounds: seq<seq<real>>, current: seq<real>)

  predicate IsLeftmostMin(m: seq<real>, k: nat) {
    && k < |m|
    && (forall j :: 0 <= j < |m| ==> m[k] <= m[j])
    && (forall j :: 0 <= j < k ==> m[k] < m[j])
  }

  function LeftmostMin(m: seq<real>): (k: nat)
    requires m != []
    ensures IsLeftmostMin(m, k)
  {
    if |m| == 1 then 0
    else
      var k := LeftmostMin(m[..|m| - 1]);
      if m[|m| - 1] < m[k] then |m| - 1 else k
  }

  ghost predicate WellFormed(n: nat, log: Log) {
    && n > 0 && |log.current| < n
    && forall i :: 0 <= i < |log.rounds| ==> |log.rounds[i]| == n
  }

  /** A round starts with the winner of the round before, the first one with candidate 0. */
  ghost function Starter(n: nat, log: Log): (k: nat)
    requires WellFormed(n, log)
    ensures k < n
  {
    if log.rounds == [] then 0 else LeftmostMin(log.rounds[|log.rounds| - 1])
  }

  /** The candidate measured i steps into a round that began with start. */
  function CandidateAt(n: nat, start: nat, i: nat): (c: nat)
    requires start < n && i < n
    ensures c < n
  {
    if start + i < n then start + i else start + i - n
  }

  /** The step at which candidate c is measured: the inverse of CandidateAt. */
  function StepOf(n: nat, start: nat, c: nat): (i: nat)
    requires start < n && c < n
    ensures i < n && CandidateAt(n, start, i) == c
    ensures forall j :: 0 <= j < n && CandidateAt(n, start, j) == c ==> j == i
  {
    if start <= c then c - start else c - start + n
  }

  ghost function ByCandidate(n: nat, start: nat, readings: seq<real>): (round: seq<real>)
    requires start < n && |readings| == n
    ensures |round| == n
    ensures forall i :: 0 <= i < n ==> round[CandidateAt(n, start, i)] == readings[i]
  {
    seq(n, c requires 0 <= c < n => readings[StepOf(n, start, c)])
  }

  /** One more reading: it belongs to the next candidate, and the n-th one closes the round. */
  ghost function Record(n: nat, log: Log, v: real): (r: Log)
    requires WellFormed(n, log)
    ensures WellFormed(n, r)
  {
    var readings := log.current + [v];
    if |readings| < n then Log(log.rounds, readings)
    else Log(log.rounds + [ByCandidate(n, Starter(n, log), readings)], [])
  }

  /** How many of the latest rounds in a row the last winner has won. */
  ghost function Streak(rounds: seq<seq<real>>): nat
    requires forall i :: 0 <= i < |rounds| ==> rounds[i] != []
  {
    var k := |rounds|;
    if k == 0 then 0
    else if k > 1 && LeftmostMin(rounds[k - 2]) == LeftmostMin(rounds[k - 1]) then 1 + Streak(rounds[..k - 1])
    else 1
  }

  ghost predicate WonLast(rounds: seq<seq<real>>, k: nat, winner: nat) {
    k <= |rounds| && forall i :: |rounds| - k <= i < |rounds| ==> IsLeftmostMin(rounds[i], winner)
  }

  lemma LeftmostMinUnique(m: seq<real>, k: nat)
    requires IsLeftmostMin(m, k)
    ensures LeftmostMin(m) == k
  {
    assert IsLeftmostMin(m, LeftmostMin(m));
  }

  /** Winning the last k rounds is winning the last one and k - 1 rounds before it. */
  lemma WonLastStep(rounds: seq<seq<real>>, k: nat, w: nat)
    requires rounds != [] && k > 0
    ensures WonLast(rounds, k, w) <==>
            IsLeftmostMin(rounds[|rounds| - 1], w) && WonLast(rounds[..|rounds| - 1], k - 1, w)
  {
    var n, init := |rounds|, rounds[..|rounds| - 1];
    if WonLast(rounds, k, w) {
      forall i | n - k <= i < n - 1
        ensures IsLeftmostMin(init[i], w)
      {
        assert init[i] == rounds[i];
      }
    }
    if IsLeftmostMin(rounds[n - 1], w) && WonLast(init, k - 1, w) {
      forall i | n - k <= i < n
        ensures IsLeftmostMin(rounds[i], w)
      {
        assert i < n - 1 ==> rounds[i] == init[i];
      }
    }
  }

  /** So only the last winner can have won several rounds. */
  lemma OnlyLastWinner(rounds: seq<seq<real>>, k: nat, w: nat)
    requires rounds != [] && rounds[|rounds| - 1] != [] && k > 0 && WonLast(rounds, k, w)
    ensures w == LeftmostMin(rounds[|rounds| - 1])
  {
    WonLastStep(rounds, k, w);
    LeftmostMinUnique(rounds[|rounds| - 1], w);
  }

  lemma {:induction false} StreakIsLastWinner(rounds: seq<seq<real>>, k: nat)
    requires forall i :: 0 <= i < |rounds| ==> rounds[i] != []
    requires k > 0 && rounds != []
    ensures Streak(rounds) >= k <==> WonLast(rounds, k, LeftmostMin(rounds[|rounds| - 1]))
    decreases |rounds|
  {
    var n, init, w := |rounds|, rounds[..|rounds| - 1], LeftmostMin(rounds[|rounds| - 1]);
    WonLastStep(rounds, k, w);
    if k > 1 && n > 1 {
      assert init[n - 2] == rounds[n - 2];
      StreakIsLastWinner(init, k - 1);
      if WonLast(init, k - 1, w) {
        OnlyLastWinner(init, k - 1, w);
      }
    }
  }

  /** A streak of k rounds is exactly k rounds in a row with the same leftmost minimum. */
  lemma StreakIsConsecutiveWins(rounds: seq<seq<real>>, k: nat)
    requires forall i :: 0 <= i < |rounds| ==> rounds[i] != []
    requires k > 0
    ensures Streak(rounds) >= k <==> exists w :: WonLast(rounds, k, w)
  {
    if rounds == [] {
      assert forall w :: !WonLast(rounds, k, w);
    } else {
      StreakIsLastWinner(rounds, k);
      if w :| WonLast(rounds, k, w) {
        OnlyLastWinner(rounds, k, w);
      }
    }
  }

  lemma StreakSnoc(rounds: seq<seq<real>>, round: seq<real>)
    requires round != [] && forall i :: 0 <= i < |rounds| ==> rounds[i] != []
    ensures Streak(rounds + [round]) ==
            if rounds != [] && LeftmostMin(rounds[|rounds| - 1]) == LeftmostMin(round) then 1 + Streak(rounds) else 1
  {
    assert (rounds + [round])[..|rounds|] == rounds;
  }

  /** Some candidate was the leftmost minimum of the last five rounds. */
  ghost predicate Decided(rounds: seq<seq<real>>) {
    exists w :: WonLast(rounds, WIN_THRESHOLD, w)
  }

  lemma FinalIsFiveWins(rounds: seq<seq<real>>)
    requires forall i :: 0 <= i < |rounds| ==> rounds[i] != []
    ensures Streak(rounds) >= WIN_THRESHOLD <==> Decided(rounds)
    ensures Decided(rounds) ==> WonLast(rounds, WIN_THRESHOLD, LeftmostMin(rounds[|rounds| - 1]))
  {
    StreakIsConsecutiveWins(rounds, WIN_THRESHOLD);
    if Decided(rounds) {
      var w :| WonLast(rounds, WIN_THRESHOLD, w);
      LeftmostMinUnique(rounds[|rounds| - 1], w);
    }
  }

  /**
   What is compared at the end of a round was all read in that round, each candidate once, and the
   bookkeeping says who won last and how often in a row.
   */
  ghost predicate Agrees(n: nat, log: Log, metrics: seq<real>, win: nat, try: nat, wins: nat) {
    && WellFormed(n, log) && |metrics| == n
    && win == Starter(n, log)
    && wins == Streak(log.rounds)
    && try == CandidateAt(n, win, |log.current|)
    && forall i :: 0 <= i < |log.current| ==> metrics[CandidateAt(n, win, i)] == log.current[i]
  }

  ghost predicate AllRead(n: nat, log: Log, metrics: seq<real>, win: nat, wins: nat) {
    WellFormed(n, log) && |metrics| == n && win == Starter(n, log) && wins == Streak(log.rounds)
  }

  lemma RoundClosed(n: nat, log: Log, metrics: seq<real>, win: nat, wins: nat, min: nat)
    requires AllRead(n, log, metrics, win, wins) && IsLeftmostMin(metrics, min)
    ensures Agrees(n, Log(log.rounds + [metrics], []), metrics, min, min, if win == min then wins + 1 else 1)
  {
    LeftmostMinUnique(metrics, min);
    StreakSnoc(log.rounds, metrics);
  }

  /** The policies are tried cyclically, and the cycle is back at its start after n readings, not before. */
  lemma NextCandidate(n: nat, start: nat, i: nat)
    requires start < n && i < n
    ensures (CandidateAt(n, start, i) + 1) % n == if i + 1 < n then CandidateAt(n, start, i + 1) else start
    ensures i + 1 < n ==> CandidateAt(n, start, i + 1) != start
    ensures forall j :: 0 <= j < i ==> CandidateAt(n, start, j) != CandidateAt(n, start, i)
  {
    var c := CandidateAt(n, start, i);
    if c + 1 < n {
      assert (c + 1) % n == c + 1;
    } else {
      assert (c + 1) % n == 0;
    }
  }

  lemma SameRound(n: nat, start: nat, readings: seq<real>, metrics: seq<real>)
    requires start < n && |readings| == n && |metrics| == n
    requires forall i :: 0 <= i < n ==> metrics[CandidateAt(n, start, i)] == readings[i]
    ensures ByCandidate(n, start, readings) == metrics
  {
    forall c | 0 <= c < n
      ensures ByCandidate(n, start, readings)[c] == metrics[c]
    {
      var i := StepOf(n, start, c);
      assert metrics[CandidateAt(n, start, i)] == readings[i];
    }
  }

  /** A reading is filed under the candidate in charge; the last one of a round completes it. */
  lemma ReadingTaken(n: nat, log: Log, metrics: seq<real>, win: nat, try: nat, wins: nat, v: real)
    requires Agrees(n, log, metrics, win, try, wins)
    ensures var metrics', next := metrics[try := v], (try + 1) % n;
            && (next == win <==> |log.current| + 1 == n)
            && (next != win ==> Agrees(n, Record(n, log, v), metrics', win, next, wins))
            && (next == win ==> AllRead(n, log, metrics', win, wins)
                                && Record(n, log, v) == Log(log.rounds + [metrics'], []))
  {
    NextCandidate(n, win, |log.current|);
    if |log.current| + 1 == n {
      SameRound(n, win, log.current + [v], metrics[try := v]);
    }
  }

  lemma CandidateIsModulo(n: nat, start: nat, i: nat)
    requires start < n && i < n
    ensures CandidateAt(n, start, i) == (start + i) % n
  {
  }

  /** The round holds each reading under its candidate, the candidates being read in turn from start on. */
  ghost predicate InTurn(n: nat, start: nat, readings: seq<real>, round: seq<real>) {
    n > 0 && |round| == |readings| == n && forall i :: 0 <= i < n ==> round[(start + i) % n] == readings[i]
  }

  lemma ByCandidateInTurn(n: nat, start: nat, readings: seq<real>)
    requires start < n && |readings| == n
    ensures InTurn(n, start, readings, ByCandidate(n, start, readings))
  {
    var round := ByCandidate(n, start, readings);
    forall i | 0 <= i < n
      ensures round[(start + i) % n] == readings[i]
    {
      CandidateIsModulo(n, start, i);
    }
  }

  /**
   A reading goes to the round under way, and the last one of n completes it: the round then holds the
   readings of all candidates in turn, beginning with the winner of the round before, or with the first.
   */
  lemma ReadingIsFiled(n: nat, log: Log, v: real, start: nat)
    requires WellFormed(n, log)
    requires if log.rounds == [] then start == 0 else IsLeftmostMin(log.rounds[|log.rounds| - 1], start)
    ensures |log.current| + 1 < n ==> Record(n, log, v) == Log(log.rounds, log.current + [v])
    ensures |log.current| + 1 == n ==>
              exists round :: Record(n, log, v) == Log(log.rounds + [round], [])
                              && InTurn(n, start, log.current + [v], round)
  {
    if log.rounds != [] {
      LeftmostMinUnique(log.rounds[|log.rounds| - 1], start);
    }
    if |log.current| + 1 == n {
      ByCandidateInTurn(n, start, log.current + [v]);
    }
  }

  class CpuAdaptive {
    const n: nat
    var managerMetrics: seq<real>
    var currTry: nat
    var currentWinFactory: nat
    var winCount: nat
    var roundCount: nat
    // the factory of the manager in charge
    var currentManager: nat
    var phase: Phase
    ghost var log: Log

    ghost predicate Valid()
      reads this
    {
      && Agrees(n, log, managerMetrics, currentWinFactory, currTry, winCount)
      && roundCount == |log.rounds|
      && currentManager == currTry
      && (phase == Final <==> winCount >= WIN_THRESHOLD)
    }

    constructor (n: nat)
      requires n > 0
      ensures Valid() && this.n == n && phase == Trying && log == Log([], [])
    {
      this.n := n;
      managerMetrics := seq(n, _ => 0.0);
      currTry, currentWinFactory, winCount, roundCount, currentManager := 0, 0, 0, 0, 0;
      phase := Trying;
      log := Log([], []);
    }

    /** One expiry of the timer. */
    method Tick(e: Event)
      requires Valid() && phase == Trying
      modifies this
      ensures Valid()
      ensures log == if e.Reading? then Record(n, old(log), e.value) else old(log)
      ensures phase == Abandoned <==> e == SeveralMetrics
      ensures phase == Final <==> Decided(log.rounds)
      ensures phase == Final <==> exists w :: WonLast(log.rounds, 5, w)
      ensures phase == Final ==> WonLast(log.rounds, 5, currentManager)
    {
      FinalIsFiveWins(log.rounds);
      if e == NoData {
        return;
      }
      if e == SeveralMetrics {
        phase := Abandoned;
        return;
      }
      TakeReading(e.value);
      FinalIsFiveWins(log.rounds);
    }

    /** File a reading and go on to the next policy. */
    method TakeReading(value: real)
      requires Valid() && phase == Trying
      modifies this
      ensures Valid() && log == Record(n, old(log), value) && phase != Abandoned
    {
      ReadingTaken(n, log, managerMetrics, currentWinFactory, currTry, winCount, value);
      managerMetrics := managerMetrics[currTry := value];
      currTry := (currTry + 1) % n;
      if currTry == currentWinFactory {
        CloseRound();
      } else {
        log := Log(log.rounds, log.current + [value]);
        currentManager := currTry;
      }
    }

    /** The end of a round: pick the leftmost least reading. */
    method CloseRound()
      requires AllRead(n, log, managerMetrics, currentWinFactory, winCount)
      requires roundCount == |log.rounds| && winCount < WIN_THRESHOLD && phase == Trying
      requires currTry == currentWinFactory
      modifies this
      ensures Valid()
      ensures log == Log(old(log.rounds) + [old(managerMetrics)], [])
      ensures phase != Abandoned
    {
      roundCount := roundCount + 1;
      var minIdx := FindMin(managerMetrics);
      RoundClosed(n, log, managerMetrics, currentWinFactory, winCount, minIdx);
      log := Log(log.rounds + [managerMetrics], []);
      if currentWinFactory == minIdx {
        winCount := winCount + 1;
        if winCount >= WIN_THRESHOLD {
          phase := Final;
        }
      } else {
        currentWinFactory, winCount, currTry := minIdx, 1, minIdx;
      }
      currentManager := currTry;
    }
  }

  method FindMin(metrics: seq<real>) returns (minIdx: nat)
    requires metrics != []
    ensures IsLeftmostMin(metrics, minIdx)
  {
    var min := metrics[0];
    minIdx := 0;
    for i := 0 to |metrics|
      invariant minIdx < |metrics| && min == metrics[minIdx]
      invariant forall j :: 0 <= j < i ==> metrics[minIdx] <= metrics[j]
      invariant forall j :: 0 <= j < minIdx ==> metrics[minIdx] < metrics[j]
    {
      if metrics[i] < min {
        minIdx, min := i, metrics[i];
      }
    }
  }
}
