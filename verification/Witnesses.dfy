// Two runs in which an acknowledged write is lost, though nothing crashes and nothing is wiped: each breaks one of the
// two conditions on hints and keeps everything else.
module Witnesses {
  import opened Types
  import opened Lww
  import opened Hints
  import opened Coordinator
  import opened Handoff
  import opened Cluster
  import opened Runs
  import opened ClusterTheorems
  import opened HintSafety

  // --- the cluster: two nodes, one replica a key, so that w + r > n ---

  const A: NodeId := [97]
  const B: NodeId := [98]
  const K: Key := [107]
  const SLOT := Slot(B, A, K)

  function Tiny(): Config {
    Config(1, 1, 1, (key: Key) => Some([A, B]))
  }

  function V(ts: nat): Versioned {
    Versioned(ts, [])
  }

  function Hint(p: nat, ts: nat): HintMsg {
    HintMsg(SLOT, V(ts), p)
  }

  lemma TinyRing(key: Key)
    ensures ValidConfig(Tiny()) && Preferred(Tiny(), key) == [A] && Candidates(Tiny(), key) == [B]
  {
  }

  // A put whose only replica is unreachable and whose hint is stored and acknowledged.
  function HintedPut(p: nat, ts: nat): seq<Step> {
    [StartPut(p, K, V(ts)), WriteFailed(p, A), TryCandidate(p), ServeHint(Hint(p, ts)), HintAcked(p), FinishPut(p)]
  }

  function Hinted(p: nat, ts: nat): PutOp {
    PutOp(K, V(ts), {}, [A], {}, 1, false, [0], Some(PutOk))
  }

  function AfterHintedPut(s: State, p: nat, ts: nat): State {
    s.(puts := s.puts[p := Hinted(p, ts)],
       writes := s.writes + {WriteMsg(A, K, V(ts), FromPut(p))},
       hintMsgs := s.hintMsgs + {Hint(p, ts)}, hintServed := s.hintServed + {Hint(p, ts)},
       hints := s.hints[SLOT := V(ts)])
  }

  lemma PutStarts(s: State, p: nat, ts: nat, op: PutOp)
    requires p !in s.puts && op == PutOp(K, V(ts), {}, [], {}, 0, false, [], None)
    ensures Leads(Tiny(), s, [StartPut(p, K, V(ts))],
            s.(puts := s.puts[p := op], writes := s.writes + {WriteMsg(A, K, V(ts), FromPut(p))}))
  {
    TinyRing(K);
    var t := Next(Tiny(), s, StartPut(p, K, V(ts)));
    assert A in Preferred(Tiny(), K) && forall a :: a in Preferred(Tiny(), K) ==> a == A;
    assert Request(p, op, A) == WriteMsg(A, K, V(ts), FromPut(p));
    assert t.writes == s.writes + {WriteMsg(A, K, V(ts), FromPut(p))};
    One(Tiny(), s, StartPut(p, K, V(ts)), t);
  }

  // A step that changes one put and nothing else.
  lemma PutMoves(s: State, step: Step, p: nat, op: PutOp)
    requires p in s.puts && PutEnabled(Tiny(), s.puts[p], step) && PutNext(Tiny(), s.puts[p], step) == op
    requires step == WriteFailed(p, A) || step == FinishPut(p)
             || (step == HintAcked(p) && HintRequest(Tiny(), p, s.puts[p]) in s.hintServed)
    ensures Leads(Tiny(), s, [step], s.(puts := s.puts[p := op]))
  {
    One(Tiny(), s, step, Next(Tiny(), s, step));
  }

  lemma CandidateAsked(s: State, p: nat, ts: nat, op: PutOp)
    requires p in s.puts && s.puts[p] == PutOp(K, V(ts), {}, [A], {}, 0, false, [], None)
    requires op == PutOp(K, V(ts), {}, [A], {}, 1, true, [], None)
    ensures AwaitsHint(Tiny(), op) && HintRequest(Tiny(), p, op) == Hint(p, ts)
    ensures Leads(Tiny(), s, [TryCandidate(p)], s.(puts := s.puts[p := op], hintMsgs := s.hintMsgs + {Hint(p, ts)}))
  {
    TinyRing(K);
    assert PutNext(Tiny(), s.puts[p], TryCandidate(p)) == op;
    One(Tiny(), s, TryCandidate(p), Next(Tiny(), s, TryCandidate(p)));
  }

  lemma HintLands(s: State, p: nat, ts: nat)
    requires Hint(p, ts) in s.hintMsgs
    ensures Leads(Tiny(), s, [ServeHint(Hint(p, ts))],
            s.(hints := s.hints[SLOT := V(ts)], hintServed := s.hintServed + {Hint(p, ts)}))
  {
    One(Tiny(), s, ServeHint(Hint(p, ts)), Next(Tiny(), s, ServeHint(Hint(p, ts))));
  }

  lemma WriteFails(s: State, p: nat, ts: nat)
    requires p !in s.puts
    ensures Leads(Tiny(), s, [StartPut(p, K, V(ts)), WriteFailed(p, A)],
                  s.(puts := s.puts[p := PutOp(K, V(ts), {}, [A], {}, 0, false, [], None)],
                      writes := s.writes + {WriteMsg(A, K, V(ts), FromPut(p))}))
  {
    var c := Tiny();
    TinyRing(K);
    var op0 := PutOp(K, V(ts), {}, [], {}, 0, false, [], None);
    var op1 := PutOp(K, V(ts), {}, [A], {}, 0, false, [], None);
    var s1 := s.(puts := s.puts[p := op0], writes := s.writes + {WriteMsg(A, K, V(ts), FromPut(p))});
    PutStarts(s, p, ts, op0);
    assert [] + [A] == [A];
    PutMoves(s1, WriteFailed(p, A), p, op1);
    var s2 := s1.(puts := s1.puts[p := op1]);
    Then(c, s, [StartPut(p, K, V(ts))], s1, [WriteFailed(p, A)], s2);
    assert [StartPut(p, K, V(ts))] + [WriteFailed(p, A)] == [StartPut(p, K, V(ts)), WriteFailed(p, A)];
    assert s2.puts == s.puts[p := op1];
  }

  // The first half of the put: its write fails and it asks the candidate.
  lemma WriteFailsAndAsks(s: State, p: nat, ts: nat)
    requires p !in s.puts
    ensures Leads(Tiny(), s, [StartPut(p, K, V(ts)), WriteFailed(p, A), TryCandidate(p)],
                  s.(puts := s.puts[p := PutOp(K, V(ts), {}, [A], {}, 1, true, [], None)],
                     writes := s.writes + {WriteMsg(A, K, V(ts), FromPut(p))}, hintMsgs := s.hintMsgs + {Hint(p, ts)}))
  {
    var op := PutOp(K, V(ts), {}, [A], {}, 1, true, [], None);
    var s2 := s.(puts := s.puts[p := op.(cursor := 0, waiting := false)],
        writes := s.writes + {WriteMsg(A, K, V(ts), FromPut(p))});
    WriteFails(s, p, ts);
    CandidateAsked(s2, p, ts, op);
    var s3 := s2.(puts := s2.puts[p := op], hintMsgs := s.hintMsgs + {Hint(p, ts)});
    Then(Tiny(), s, [StartPut(p, K, V(ts)), WriteFailed(p, A)], s2, [TryCandidate(p)], s3);
    assert [StartPut(p, K, V(ts)), WriteFailed(p, A)] + [TryCandidate(p)]
           == [StartPut(p, K, V(ts)), WriteFailed(p, A), TryCandidate(p)];
    assert s3.puts == s.puts[p := op];
  }

  // The second half: the candidate stores the hint, and that is enough.
  lemma HintSucceeds(s: State, p: nat, ts: nat)
    requires p in s.puts && s.puts[p] == PutOp(K, V(ts), {}, [A], {}, 1, true, [], None) && Hint(p, ts) in s.hintMsgs
    ensures Leads(Tiny(), s, [ServeHint(Hint(p, ts)), HintAcked(p), FinishPut(p)],
                  s.(puts := s.puts[p := Hinted(p, ts)], hints := s.hints[SLOT := V(ts)],
                      hintServed := s.hintServed + {Hint(p, ts)}))
  {
    var c := Tiny();
    TinyRing(K);
    HintLands(s, p, ts);
    var s1 := s.(hints := s.hints[SLOT := V(ts)], hintServed := s.hintServed + {Hint(p, ts)});
    var op := Hinted(p, ts).(result := None);
    assert [] + [0] == [0] && PutNext(c, s1.puts[p], HintAcked(p)) == op;
    PutMoves(s1, HintAcked(p), p, op);
    var s2 := s1.(puts := s1.puts[p := op]);
    assert PutNext(c, op, FinishPut(p)) == Hinted(p, ts);
    PutMoves(s2, FinishPut(p), p, Hinted(p, ts));
    var s3 := s2.(puts := s2.puts[p := Hinted(p, ts)]);
    Then(c, s, [ServeHint(Hint(p, ts))], s1, [HintAcked(p)], s2);
    Then(c, s, [ServeHint(Hint(p, ts))] + [HintAcked(p)], s2, [FinishPut(p)], s3);
    assert [ServeHint(Hint(p, ts))] + [HintAcked(p)] + [FinishPut(p)]
           == [ServeHint(Hint(p, ts)), HintAcked(p), FinishPut(p)];
    assert s3.puts == s.puts[p := Hinted(p, ts)];
  }

  lemma HintedPutRuns(s: State, p: nat, ts: nat)
    requires p !in s.puts
    ensures Leads(Tiny(), s, HintedPut(p, ts), AfterHintedPut(s, p, ts))
  {
    var s3 := s.(puts := s.puts[p := PutOp(K, V(ts), {}, [A], {}, 1, true, [], None)],
                 writes := s.writes + {WriteMsg(A, K, V(ts), FromPut(p))}, hintMsgs := s.hintMsgs + {Hint(p, ts)});
    WriteFailsAndAsks(s, p, ts);
    HintSucceeds(s3, p, ts);
    assert s3.puts[p := Hinted(p, ts)] == s.puts[p := Hinted(p, ts)];
    var a, b := [StartPut(p, K, V(ts)), WriteFailed(p, A), TryCandidate(p)],
        [ServeHint(Hint(p, ts)), HintAcked(p), FinishPut(p)];
    Then(Tiny(), s, a, s3, b, AfterHintedPut(s, p, ts));
    assert a + b == HintedPut(p, ts);
  }

  function AfterSnapshot(s: State, ts: nat): State {
    s.(deliveries := s.deliveries[0 := Delivery(SLOT, V(ts), true)],
        writes := s.writes + {WriteMsg(A, K, V(ts), FromHint(0))})
  }

  lemma SnapshotRuns(s: State, ts: nat)
    requires 0 !in s.deliveries && SLOT in s.hints && s.hints[SLOT] == V(ts)
    ensures Leads(Tiny(), s, [Snapshot(0, SLOT)], AfterSnapshot(s, ts))
  {
    One(Tiny(), s, Snapshot(0, SLOT), AfterSnapshot(s, ts));
  }

  // The hint is delivered and deleted.
  function Deliver(ts: nat): seq<Step> {
    [ServeWrite(WriteMsg(A, K, V(ts), FromHint(0))), DeleteHint(0)]
  }

  lemma DeliverRuns(s: State, ts: nat)
    requires 0 in s.deliveries && s.deliveries[0] == Delivery(SLOT, V(ts), true)
    requires WriteMsg(A, K, V(ts), FromHint(0)) in s.writes && Entry(s, A, K).None?
    ensures var m := WriteMsg(A, K, V(ts), FromHint(0));
            Leads(Tiny(), s, Deliver(ts),
                  s.(replicas := s.replicas[Place(A, K) := V(ts)], served := s.served + {m},
                      standing := s.standing + {m},
                     hints := s.hints - {SLOT}, deliveries := s.deliveries[0 := Delivery(SLOT, V(ts), false)]))
  {
    var m := WriteMsg(A, K, V(ts), FromHint(0));
    var s1 := s.(replicas := s.replicas[Place(A, K) := V(ts)], served := s.served + {m}, standing := s.standing + {m});
    One(Tiny(), s, ServeWrite(m), s1);
    var s2 := s1.(hints := s.hints - {SLOT}, deliveries := s.deliveries[0 := Delivery(SLOT, V(ts), false)]);
    One(Tiny(), s1, DeleteHint(0), s2);
    Then(Tiny(), s, [ServeWrite(m)], s1, [DeleteHint(0)], s2);
    assert [ServeWrite(m)] + [DeleteHint(0)] == Deliver(ts);
  }

  // A read that gets every response there is.
  const READALL := [StartGet(0, K), ReadReplica(0, A), Respond(0, A), FinishGet(0)]

  function Answered(ts: nat): GetOp {
    GetOp(K, map[A := Some(V(ts))], [(A, Some(V(ts)))], Some(GetOk(Some(V(ts)))))
  }

  lemma GetMoves(s: State, step: Step, op: GetOp, found: Option<Versioned>)
    requires 0 in s.gets && GetEnabled(Tiny(), s.gets[0], step) && GetNext(Tiny(), s.gets[0], step, found) == op
    requires step == Respond(0, A) || (step == ReadReplica(0, A) && found == Entry(s, A, s.gets[0].key))
    ensures Leads(Tiny(), s, [step], s.(gets := s.gets[0 := op]))
  {
    One(Tiny(), s, step, s.(gets := s.gets[0 := op]));
  }

  lemma ReadStarts(s: State, ts: nat)
    requires 0 !in s.gets && Entry(s, A, K) == Some(V(ts))
    ensures Leads(Tiny(), s, [StartGet(0, K), ReadReplica(0, A)],
            s.(gets := s.gets[0 := GetOp(K, map[A := Some(V(ts))], [], None)]))
  {
    TinyRing(K);
    var s1 := s.(gets := s.gets[0 := GetOp(K, map[], [], None)]);
    One(Tiny(), s, StartGet(0, K), s1);
    var op := GetOp(K, map[A := Some(V(ts))], [], None);
    GetMoves(s1, ReadReplica(0, A), op, Some(V(ts)));
    Then(Tiny(), s, [StartGet(0, K)], s1, [ReadReplica(0, A)], s1.(gets := s1.gets[0 := op]));
    assert [StartGet(0, K)] + [ReadReplica(0, A)] == [StartGet(0, K), ReadReplica(0, A)];
    assert s1.gets[0 := op] == s.gets[0 := op];
  }

  lemma ReadFinishes(s: State, ts: nat) returns (t: State)
    requires 0 in s.gets && s.gets[0] == GetOp(K, map[A := Some(V(ts))], [(A, Some(V(ts)))], None)
    ensures Leads(Tiny(), s, [FinishGet(0)], t)
    ensures t.puts == s.puts && t.hints == s.hints && 0 in t.gets && t.gets[0] == Answered(ts)
  {
    t := Next(Tiny(), s, FinishGet(0));
    assert Winner(s.gets[0].responses) == Some(V(ts)) by {
      assert s.gets[0].responses[..0] == [];
    }
    One(Tiny(), s, FinishGet(0), t);
  }

  lemma ReadAllRuns(s: State, ts: nat) returns (t: State)
    requires 0 !in s.gets && Entry(s, A, K) == Some(V(ts))
    ensures Leads(Tiny(), s, READALL, t)
    ensures t.puts == s.puts && t.hints == s.hints && 0 in t.gets && t.gets[0] == Answered(ts)
  {
    ReadStarts(s, ts);
    var s2 := s.(gets := s.gets[0 := GetOp(K, map[A := Some(V(ts))], [], None)]);
    var op := GetOp(K, map[A := Some(V(ts))], [(A, Some(V(ts)))], None);
    assert [] + [(A, Some(V(ts)))] == [(A, Some(V(ts)))];
    GetMoves(s2, Respond(0, A), op, None);
    var s3 := s2.(gets := s2.gets[0 := op]);
    t := ReadFinishes(s3, ts);
    Then(Tiny(), s, [StartGet(0, K), ReadReplica(0, A)], s2, [Respond(0, A)], s3);
    Then(Tiny(), s, [StartGet(0, K), ReadReplica(0, A)] + [Respond(0, A)], s3, [FinishGet(0)], t);
    assert [StartGet(0, K), ReadReplica(0, A)] + [Respond(0, A)] + [FinishGet(0)] == READALL;
  }

  // An acknowledged put is lost: it returned Ok, no hint is left that could still bring it, no node was wiped, and a
  // read of every replica returns something older.
  ghost predicate LosesAPut(c: Config, states: seq<State>, steps: seq<Step>, p: nat, g: nat) {
    && ValidConfig(c) && c.w + c.r > c.n && IsRun(c, states, steps)
    && (forall i :: 0 <= i < |steps| ==> !steps[i].Wipe?)
    && IsLost(c, states[|steps|], p, g)
  }

  ghost predicate IsLost(c: Config, t: State, p: nat, g: nat) {
    && p in t.puts && t.puts[p].result == Some(PutOk) && t.hints == map[]
    && Returned(t, g, t.puts[p].key) && |t.gets[g].responses| == c.n
    && !AtLeast(Result(t, g, t.puts[p].key), t.puts[p].value.timestamp)
  }

  // A hint overwritten by an older one.
  function OverwrittenByOlder(older: nat, newer: nat): seq<Step> {
    HintedPut(0, newer) + HintedPut(1, older) + [Snapshot(0, SLOT)] + (Deliver(older) + READALL)
  }

  // A newer hint deleted in place of the older one that was delivered.
  function DeletedUnsent(older: nat, newer: nat): seq<Step> {
    HintedPut(0, older) + [Snapshot(0, SLOT)] + HintedPut(1, newer) + (Deliver(older) + READALL)
  }

  // The end of both runs: a delivery of the older version, then a read.
  lemma RunEnds(s: State, ts: nat) returns (t: State)
    requires s.replicas == map[] && s.gets == map[]
    requires 0 in s.deliveries && s.deliveries[0] == Delivery(SLOT, V(ts), true)
    requires WriteMsg(A, K, V(ts), FromHint(0)) in s.writes && s.hints.Keys == {SLOT}
    ensures Leads(Tiny(), s, Deliver(ts) + READALL, t)
    ensures t.puts == s.puts && t.hints == map[] && 0 in t.gets && t.gets[0] == Answered(ts)
  {
    DeliverRuns(s, ts);
    var m := WriteMsg(A, K, V(ts), FromHint(0));
    var s2 := s.(replicas := s.replicas[Place(A, K) := V(ts)], served := s.served + {m}, standing := s.standing + {m},
                 hints := s.hints - {SLOT}, deliveries := s.deliveries[0 := Delivery(SLOT, V(ts), false)]);
    t := ReadAllRuns(s2, ts);
    Then(Tiny(), s, Deliver(ts), s2, READALL, t);
  }

  // What the last part of either run needs of the first.
  ghost predicate Ready(s: State, p: nat, older: nat, newer: nat) {
    && s.replicas == map[] && s.gets == map[]
    && 0 in s.deliveries && s.deliveries[0] == Delivery(SLOT, V(older), true)
    && WriteMsg(A, K, V(older), FromHint(0)) in s.writes && s.hints.Keys == {SLOT}
    && p in s.puts && s.puts[p] == Hinted(p, newer)
  }

  lemma EndIsLost(t: State, p: nat, older: nat, newer: nat)
    requires older < newer && p in t.puts && t.puts[p] == Hinted(p, newer) && t.hints == map[]
    requires 0 in t.gets && t.gets[0] == Answered(older)
    ensures IsLost(Tiny(), t, p, 0)
  {
  }

  lemma NoWipeIn(first: seq<Step>, ts: nat)
    requires forall i :: 0 <= i < |first| ==> !first[i].Wipe?
    ensures var steps := first + (Deliver(ts) + READALL);
            forall i :: 0 <= i < |steps| ==> !steps[i].Wipe?
  {
  }

  lemma RunLoses(first: seq<Step>, mid: State, p: nat, older: nat, newer: nat)
    requires older < newer && Leads(Tiny(), INIT, first, mid) && forall i :: 0 <= i < |first| ==> !first[i].Wipe?
    requires Ready(mid, p, older, newer)
    ensures exists states :: LosesAPut(Tiny(), states, first + (Deliver(older) + READALL), p, 0)
  {
    TinyRing(K);
    var t := RunEnds(mid, older);
    var steps := first + (Deliver(older) + READALL);
    Then(Tiny(), INIT, first, mid, Deliver(older) + READALL, t);
    var states :| Path(Tiny(), states, steps) && states[0] == INIT && states[|steps|] == t;
    EndIsLost(t, p, older, newer);
    NoWipeIn(first, older);
    assert LosesAPut(Tiny(), states, steps, p, 0);
  }

  ghost predicate Untouched(s: State) {
    s.replicas == map[] && s.hints == map[] && s.puts == map[] && s.gets == map[] && s.deliveries == map[]
  }

  lemma TwoPuts(s: State, older: nat, newer: nat)
    requires Untouched(s)
    ensures Leads(Tiny(), s, HintedPut(0, newer) + HintedPut(1, older),
            AfterHintedPut(AfterHintedPut(s, 0, newer), 1, older))
  {
    HintedPutRuns(s, 0, newer);
    HintedPutRuns(AfterHintedPut(s, 0, newer), 1, older);
    Then(Tiny(), s, HintedPut(0, newer), AfterHintedPut(s, 0, newer), HintedPut(1, older),
        AfterHintedPut(AfterHintedPut(s, 0, newer), 1, older));
  }

  lemma OlderArrivesLast(s: State, older: nat, newer: nat) returns (t: State)
    requires Untouched(s)
    ensures Leads(Tiny(), s, HintedPut(0, newer) + HintedPut(1, older) + [Snapshot(0, SLOT)], t)
            && Ready(t, 0, older, newer)
  {
    TwoPuts(s, older, newer);
    var mid := AfterHintedPut(AfterHintedPut(s, 0, newer), 1, older);
    SnapshotRuns(mid, older);
    t := AfterSnapshot(mid, older);
    Then(Tiny(), s, HintedPut(0, newer) + HintedPut(1, older), mid, [Snapshot(0, SLOT)], t);
  }

  lemma PutThenSnapshot(s: State, ts: nat)
    requires Untouched(s)
    ensures Leads(Tiny(), s, HintedPut(0, ts) + [Snapshot(0, SLOT)], AfterSnapshot(AfterHintedPut(s, 0, ts), ts))
  {
    HintedPutRuns(s, 0, ts);
    SnapshotRuns(AfterHintedPut(s, 0, ts), ts);
    Then(Tiny(), s, HintedPut(0, ts), AfterHintedPut(s, 0, ts), [Snapshot(0, SLOT)],
        AfterSnapshot(AfterHintedPut(s, 0, ts), ts));
  }

  lemma NewerArrivesMeanwhile(s: State, older: nat, newer: nat) returns (t: State)
    requires Untouched(s)
    ensures Leads(Tiny(), s, HintedPut(0, older) + [Snapshot(0, SLOT)] + HintedPut(1, newer), t)
            && Ready(t, 1, older, newer)
  {
    PutThenSnapshot(s, older);
    var mid := AfterSnapshot(AfterHintedPut(s, 0, older), older);
    HintedPutRuns(mid, 1, newer);
    t := AfterHintedPut(mid, 1, newer);
    Then(Tiny(), s, HintedPut(0, older) + [Snapshot(0, SLOT)], mid, HintedPut(1, newer), t);
  }

  // Without "no hint is overwritten by an older one".
  lemma HintOrderMatters(older: nat, newer: nat)
    requires older < newer
    ensures exists states :: LosesAPut(Tiny(), states, OverwrittenByOlder(older, newer), 0, 0)
  {
    var mid := OlderArrivesLast(INIT, older, newer);
    var first := HintedPut(0, newer) + HintedPut(1, older) + [Snapshot(0, SLOT)];
    RunLoses(first, mid, 0, older, newer);
    assert OverwrittenByOlder(older, newer) == first + (Deliver(older) + READALL);
  }

  // Without "no newer hint is stored between a delivery's snapshot and its delete".
  lemma StoreDuringDeliveryMatters(older: nat, newer: nat)
    requires older < newer
    ensures exists states :: LosesAPut(Tiny(), states, DeletedUnsent(older, newer), 1, 0)
  {
    var mid := NewerArrivesMeanwhile(INIT, older, newer);
    var first := HintedPut(0, older) + [Snapshot(0, SLOT)] + HintedPut(1, newer);
    RunLoses(first, mid, 1, older, newer);
    assert DeletedUnsent(older, newer) == first + (Deliver(older) + READALL);
  }
}
