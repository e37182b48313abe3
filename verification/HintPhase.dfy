// The protocol's hint steps and the coordinator's cursor loop are the same algorithm.
module HintPhase {
  import opened Types
  import opened HintLoop
  import opened Coordinator
  import opened Cluster
  import opened ClusterInvariants
  import opened ClusterTheorems

  // The hint phase of a put on its own, with candidates that answer as `accepts` says.
  function HintPhaseRun(c: Config, op: PutOp, accepts: Acceptance): PutOp
    decreases |Candidates(c, op.key)| - op.cursor
  {
    if PutEnabled(c, op, TryCandidate(0)) then HintPhaseRun(c, HintTurn(c, op, accepts), accepts) else op
  }

  ghost predicate PairsDefined(c: Config, op: PutOp) {
    |op.hintedAt| <= |op.failed| && forall i :: 0 <= i < |op.hintedAt| ==> op.hintedAt[i] < |Candidates(c, op.key)|
  }

  // The targets of a put with the candidates that hold their hints.
  ghost function HintedPairs(c: Config, op: PutOp): seq<Pair>
    requires PairsDefined(c, op)
  {
    seq(|op.hintedAt|, i requires 0 <= i < |op.hintedAt| => (op.failed[i], Candidates(c, op.key)[op.hintedAt[i]]))
  }

  // One turn of the hint phase: what it makes of the put.
  function HintTurn(c: Config, op: PutOp, accepts: Acceptance): PutOp
    requires PutEnabled(c, op, TryCandidate(0))
  {
    var asked := PutNext(c, op, TryCandidate(0));
    if !AwaitsHint(c, asked) then asked
    else PutNext(c, asked, if accepts(asked.failed[|asked.hintedAt|], Candidates(c, op.key)[op.cursor])
        then HintAcked(0) else HintFailed(0))
  }

  lemma HintTurnKeepsBooks(c: Config, op: PutOp, accepts: Acceptance)
    requires PutBooks(c, op) && PutEnabled(c, op, TryCandidate(0))
    ensures var next := HintTurn(c, op, accepts);
            PutBooks(c, next) && InHintPhase(c, next) && !next.waiting
            && next.key == op.key && next.failed == op.failed && next.cursor == op.cursor + 1
  {
    var asked := PutNext(c, op, TryCandidate(0));
    HintPhaseKeepsBooks(c, op, TryCandidate(0));
    if AwaitsHint(c, asked) {
      HintPhaseKeepsBooks(c, asked, HintAcked(0));
      HintPhaseKeepsBooks(c, asked, HintFailed(0));
    }
  }

  lemma HintTurnTakes(c: Config, op: PutOp, accepts: Acceptance)
    requires PutBooks(c, op) && PutEnabled(c, op, TryCandidate(0))
    ensures var target, candidate := op.failed[|op.hintedAt|], Candidates(c, op.key)[op.cursor];
            HintTurn(c, op, accepts).hintedAt
            == op.hintedAt + if candidate !in Preferred(c, op.key) && accepts(target, candidate)
                then [op.cursor] else []
  {
  }

  lemma PairsAppend(c: Config, op: PutOp, next: PutOp, i: nat)
    requires PairsDefined(c, op) && next.key == op.key && next.failed == op.failed
    requires |op.hintedAt| < |op.failed| && i < |Candidates(c, op.key)| && next.hintedAt == op.hintedAt + [i]
    ensures PairsDefined(c, next) && HintedPairs(c, next)
            == HintedPairs(c, op) + [(op.failed[|op.hintedAt|], Candidates(c, op.key)[i])]
  {
  }

  lemma HintTurnPairs(c: Config, op: PutOp, accepts: Acceptance)
    requires PutBooks(c, op) && PutEnabled(c, op, TryCandidate(0))
    ensures var target, candidate := op.failed[|op.hintedAt|], Candidates(c, op.key)[op.cursor];
            PairsDefined(c, HintTurn(c, op, accepts))
            && HintedPairs(c, HintTurn(c, op, accepts))
               == HintedPairs(c, op) + if candidate !in Preferred(c, op.key) && accepts(target, candidate)
                   then [(target, candidate)] else []
  {
    var next := HintTurn(c, op, accepts);
    HintTurnTakes(c, op, accepts);
    HintTurnKeepsBooks(c, op, accepts);
    if next.hintedAt == op.hintedAt {
      assert HintedPairs(c, next) == HintedPairs(c, op);
    } else {
      PairsAppend(c, op, next, op.cursor);
    }
  }

  lemma PlacementsTurn(pairs: seq<Pair>, failed: seq<NodeId>, i: nat, candidates: seq<NodeId>, cursor: nat,
                       preferred: set<NodeId>, accepts: Acceptance)
    requires i < |failed| && cursor < |candidates|
    ensures var t, c := failed[i], candidates[cursor];
            var taken := c !in preferred && accepts(t, c);
            pairs + Placements(failed[i..], candidates[cursor..], preferred, accepts)
            == (pairs + if taken then [(t, c)] else [])
                + Placements(failed[if taken then i + 1 else i..], candidates[cursor + 1..], preferred, accepts)
  {
    assert candidates[cursor..][1..] == candidates[cursor + 1..] && failed[i..][1..] == failed[i + 1..];
    PlacementsStep(failed[i..], candidates[cursor..], preferred, accepts);
  }

  // The hints a put has, and those that the cursor loop would place from here on.
  ghost function HintsInAll(c: Config, op: PutOp, accepts: Acceptance): seq<Pair>
    requires PairsDefined(c, op) && op.cursor <= |Candidates(c, op.key)|
  {
    HintedPairs(c, op) + Placements(op.failed[|op.hintedAt|..], Candidates(c, op.key)[op.cursor..],
        Elements(Preferred(c, op.key)), accepts)
  }

  lemma AllAfterTurn(c: Config, op: PutOp, next: PutOp, taken: bool, accepts: Acceptance)
    requires PairsDefined(c, op) && PairsDefined(c, next)
    requires |op.hintedAt| < |op.failed| && op.cursor < |Candidates(c, op.key)|
    requires next.key == op.key && next.failed == op.failed && next.cursor == op.cursor + 1
    requires taken <==>
             && Candidates(c, op.key)[op.cursor] !in Elements(Preferred(c, op.key))
             && accepts(op.failed[|op.hintedAt|], Candidates(c, op.key)[op.cursor])
    requires HintedPairs(c, next) == HintedPairs(c, op) + if taken
             then [(op.failed[|op.hintedAt|], Candidates(c, op.key)[op.cursor])] else []
    ensures HintsInAll(c, next, accepts) == HintsInAll(c, op, accepts)
  {
    assert |HintedPairs(c, next)| == |next.hintedAt| && |HintedPairs(c, op)| == |op.hintedAt|;
    PlacementsTurn(HintedPairs(c, op), op.failed, |op.hintedAt|, Candidates(c, op.key), op.cursor,
        Elements(Preferred(c, op.key)), accepts);
  }

  lemma HintTurnKeepsAll(c: Config, op: PutOp, accepts: Acceptance)
    requires PutBooks(c, op) && PutEnabled(c, op, TryCandidate(0))
    requires PutBooks(c, HintTurn(c, op, accepts))
    ensures HintsInAll(c, HintTurn(c, op, accepts), accepts) == HintsInAll(c, op, accepts)
  {
    HintTurnKeepsBooks(c, op, accepts);
    HintTurnPairs(c, op, accepts);
    var target, candidate := op.failed[|op.hintedAt|], Candidates(c, op.key)[op.cursor];
    AllAfterTurn(c, op, HintTurn(c, op, accepts), candidate !in Preferred(c, op.key)
        && accepts(target, candidate), accepts);
  }

  // The protocol's hint steps place exactly the hints that the cursor loop places, and leave the put ready to finish.
  lemma {:induction false} HintPhaseIsCursorLoop(c: Config, op: PutOp, accepts: Acceptance)
    requires PutBooks(c, op) && InHintPhase(c, op) && !op.waiting
    ensures var end := HintPhaseRun(c, op, accepts);
            PutBooks(c, end) && PutEnabled(c, end, FinishPut(0)) && HintedPairs(c, end) == HintsInAll(c, op, accepts)
    decreases |Candidates(c, op.key)| - op.cursor
  {
    if PutEnabled(c, op, TryCandidate(0)) {
      HintTurnKeepsBooks(c, op, accepts);
      HintTurnKeepsAll(c, op, accepts);
      HintPhaseIsCursorLoop(c, HintTurn(c, op, accepts), accepts);
    }
  }

  // --- in runs ---

  // Before the put came to the candidate at index j, it had hinted its first h failed nodes.
  ghost predicate HintedBefore(hintedAt: seq<nat>, j: nat, h: nat) {
    && h <= |hintedAt|
    && (forall i :: 0 <= i < h ==> hintedAt[i] < j)
    && (forall i :: h <= i < |hintedAt| ==> hintedAt[i] >= j)
  }

  // A candidate that the cursor came to was asked for the first failed node not yet hinted, and acknowledged that hint
  // exactly if `accepts` says so.
  ghost predicate Answered(failed: seq<NodeId>, candidates: seq<NodeId>, hintedAt: seq<nat>, cursor: nat,
                           accepts: Acceptance)
  {
    forall j: nat, h: nat :: j < cursor && j < |candidates| && h < |failed| && HintedBefore(hintedAt, j, h) ==>
      (accepts(failed[h], candidates[j]) <==> h < |hintedAt| && hintedAt[h] == j)
  }

  // The answers that the put got.
  ghost predicate AnsweredAs(c: Config, op: PutOp, accepts: Acceptance) {
    Answered(op.failed, Candidates(c, op.key), op.hintedAt, op.cursor, accepts)
  }

  // The cursor has gone through the candidates in order, until all failed nodes were hinted or no candidate was left.
  ghost predicate IsWalk(failed: seq<NodeId>, candidates: seq<NodeId>, hintedAt: seq<nat>, cursor: nat,
                         pairs: seq<Pair>)
  {
    && |pairs| == |hintedAt| <= |failed| && cursor <= |candidates|
    && (forall i :: 0 <= i < |hintedAt| ==> hintedAt[i] < cursor && pairs[i] == (failed[i], candidates[hintedAt[i]]))
    && (forall i, j :: 0 <= i < j < |hintedAt| ==> hintedAt[i] < hintedAt[j])
    && (|hintedAt| == |failed| || cursor == |candidates|)
  }

  lemma {:induction false} HintsFromHere(failed: seq<NodeId>, candidates: seq<NodeId>, hintedAt: seq<nat>, cursor: nat,
                                         pairs: seq<Pair>, preferred: set<NodeId>, accepts: Acceptance, j: nat, h: nat)
    requires IsWalk(failed, candidates, hintedAt, cursor, pairs)
             && Answered(failed, candidates, hintedAt, cursor, accepts)
    requires forall x :: x in candidates ==> x !in preferred
    requires j <= cursor && HintedBefore(hintedAt, j, h)
    ensures Placements(failed[h..], candidates[j..], preferred, accepts) == pairs[h..]
    decreases cursor - j
  {
    if h < |failed| && j < |candidates| {
      PlacementsTurn([], failed, h, candidates, j, preferred, accepts);
      assert candidates[j] !in preferred;
      if accepts(failed[h], candidates[j]) {
        HintsFromHere(failed, candidates, hintedAt, cursor, pairs, preferred, accepts, j + 1, h + 1);
        assert pairs[h..] == [pairs[h]] + pairs[h + 1..];
      } else {
        HintsFromHere(failed, candidates, hintedAt, cursor, pairs, preferred, accepts, j + 1, h);
      }
    }
  }

  lemma CandidatesNotPreferred(c: Config, key: Key)
    requires ValidConfig(c) && c.ring(key).Some?
    ensures forall x :: x in Candidates(c, key) ==> x !in Elements(Preferred(c, key))
  {
    RingSplits(c, key);
    assert forall x :: x in Candidates(c, key) ==> x in Elements(Candidates(c, key));
  }

  // In every run the hints of a finished put are those of the cursor loop, for the answers that the run gave.
  lemma FinishedHintsAreCursorLoop(c: Config, states: seq<State>, steps: seq<Step>, i: nat, p: nat, accepts: Acceptance)
    requires ValidConfig(c) && IsRun(c, states, steps) && i < |states|
    requires p in states[i].puts && states[i].puts[p].result.Some? && AnsweredAs(c, states[i].puts[p], accepts)
    ensures var op := states[i].puts[p];
            && PairsDefined(c, op)
            && HintedPairs(c, op) == Placements(op.failed, Candidates(c, op.key),
                 Elements(Preferred(c, op.key)), accepts)
  {
    RunKeepsInv(c, states, steps, i);
    var op := states[i].puts[p];
    assert PutBooks(c, op);
    CandidatesNotPreferred(c, op.key);
    HintsFromHere(op.failed, Candidates(c, op.key), op.hintedAt, op.cursor, HintedPairs(c, op),
        Elements(Preferred(c, op.key)), accepts, 0, 0);
    assert op.failed[0..] == op.failed && Candidates(c, op.key)[0..] == Candidates(c, op.key);
    assert HintedPairs(c, op)[0..] == HintedPairs(c, op);
  }

  // There are always such answers.
  lemma AnswersExist(c: Config, op: PutOp)
    requires ValidConfig(c) && PutBooks(c, op)
    ensures AnsweredAs(c, op, (t, x) => (t, x) in HintedPairs(c, op))
  {
    var candidates := Candidates(c, op.key);
    RingSplits(c, op.key);
    forall j: nat, h: nat | j < op.cursor && j < |candidates| && h < |op.failed| && HintedBefore(op.hintedAt, j, h)
      ensures (op.failed[h], candidates[j]) in HintedPairs(c, op) <==> h < |op.hintedAt| && op.hintedAt[h] == j
    {
      if (op.failed[h], candidates[j]) in HintedPairs(c, op) {
        var i :| 0 <= i < |op.hintedAt| && HintedPairs(c, op)[i] == (op.failed[h], candidates[j]);
        assert op.failed[i] == op.failed[h] && candidates[op.hintedAt[i]] == candidates[j];
      }
      if h < |op.hintedAt| && op.hintedAt[h] == j {
        assert HintedPairs(c, op)[h] == (op.failed[h], candidates[j]);
      }
    }
  }

  // The closed form in every run: if each candidate that the put came to answered as its own willingness says, the put
  // hints min(failed nodes, willing candidates) of them, the i-th on the i-th; it returns Ok if and only if these and
  // the acknowledgements reach w; and no other placement would have earned more.
  lemma FinishedPutInClosedForm(c: Config, states: seq<State>, steps: seq<Step>, i: nat, p: nat,
                                willing: NodeId -> bool)
    requires ValidConfig(c) && IsRun(c, states, steps) && i < |states|
    requires p in states[i].puts && states[i].puts[p].result.Some?
    requires AnsweredAs(c, states[i].puts[p], (t, x) => willing(x))
    ensures var op := states[i].puts[p];
            var preferred, candidates := Elements(Preferred(c, op.key)), Candidates(c, op.key);
            var takers := Willing(candidates, preferred, willing);
            && PairsDefined(c, op) && |op.hintedAt| == Min(|op.failed|, |takers|)
            && (forall k :: 0 <= k < |op.hintedAt| ==> HintedPairs(c, op)[k] == (op.failed[k], takers[k]))
            && (op.result.value == PutOk <==> |op.acked| + Min(|op.failed|, |takers|) >= c.w)
            && Optimal(op.failed, candidates, preferred, (t, x) => willing(x))
  {
    RunKeepsInv(c, states, steps, i);
    var op := states[i].puts[p];
    assert PutBooks(c, op);
    var accepts: Acceptance := (t, x) => willing(x);
    var preferred, candidates := Elements(Preferred(c, op.key)), Candidates(c, op.key);
    FinishedHintsAreCursorLoop(c, states, steps, i, p, accepts);
    ClosedForm(op.failed, candidates, preferred, accepts, willing);
    GreedyIsOptimal(op.failed, candidates, preferred, accepts);
    assert |HintedPairs(c, op)| == |op.hintedAt|;
  }
}
