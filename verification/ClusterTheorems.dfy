// Guarantees over every run of the protocol.
module ClusterTheorems {
  import opened Types
  import opened Lww
  import opened Hints
  import opened Coordinator
  import opened Handoff
  import opened Cluster
  import opened ClusterInvariants

  // --- from one state of a run to a later one ---

  lemma {:induction false} StillAtLeast(c: Config, states: seq<State>, steps: seq<Step>, i: nat, j: nat, node: NodeId,
                                        key: Key, ts: nat)
    requires IsRun(c, states, steps) && i <= j < |states|
    requires AtLeast(Entry(states[i], node, key), ts) && Unwiped(steps, i, j, node)
    ensures AtLeast(Entry(states[j], node, key), ts)
  {
    if i < j {
      StillAtLeast(c, states, steps, i, j - 1, node, key, ts);
      ReplicaMonotone(c, states[j - 1], steps[j - 1], node, key, ts);
    }
  }

  lemma {:induction false} ServedIsStanding(c: Config, states: seq<State>, steps: seq<Step>, i: nat, m: WriteMsg)
    requires IsRun(c, states, steps) && i < |states| && m in states[i].served && Unwiped(steps, 0, i, m.dst)
    ensures m in states[i].standing
  {
    if i > 0 {
      if m in states[i - 1].served {
        ServedIsStanding(c, states, steps, i - 1, m);
      }
      ServedStandsStep(c, states[i - 1], steps[i - 1], m);
    }
  }

  // A write that was carried out on a node never wiped is covered there for good.
  lemma ServedStands(c: Config, states: seq<State>, steps: seq<Step>, i: nat, m: WriteMsg)
    requires IsRun(c, states, steps) && i < |states| && m in states[i].served && Unwiped(steps, 0, i, m.dst)
    ensures m in states[i].standing && AtLeast(Entry(states[i], m.dst, m.key), m.value.timestamp)
  {
    ServedIsStanding(c, states, steps, i, m);
    RunKeepsInv(c, states, steps, i);
  }

  // What a replica holds at any moment of any run: the newest of the writes carried out there since its last wipe.
  lemma EntryIsNewestWrite(c: Config, states: seq<State>, steps: seq<Step>, i: nat, node: NodeId, key: Key)
    requires IsRun(c, states, steps) && i < |states|
    ensures var s := states[i];
            && (forall v :: Entry(s, node, key) == Some(v) ==>
                 Brought(s, node, key, v) && forall u :: Brought(s, node, key, u) ==> u.timestamp <= v.timestamp)
            && (Entry(s, node, key).None? <==> forall v :: !Brought(s, node, key, v))
  {
    RunKeepsInv(c, states, steps, i);
    var s := states[i];
    if Place(node, key) in s.replicas {
      assert Brought(s, node, key, s.replicas[Place(node, key)]);
    }
    forall u | Brought(s, node, key, u) ensures AtLeast(Entry(s, node, key), u.timestamp) {
      var m :| m in s.standing && m.dst == node && m.key == key && m.value == u;
    }
  }

  // Confluence: two replicas, of the same run or of different ones, to which the same versions of a key were brought
  // hold the same, in whatever order, how often and by whatever way they came, where timestamps determine values.
  lemma SameWritesSameEntry(c: Config, states: seq<State>, steps: seq<Step>, i: nat, a: NodeId,
                            states': seq<State>, steps': seq<Step>, j: nat, b: NodeId, key: Key)
    requires IsRun(c, states, steps) && i < |states| && IsRun(c, states', steps') && j < |states'|
    requires forall v :: Brought(states[i], a, key, v) <==> Brought(states'[j], b, key, v)
    requires forall u, v ::
               Brought(states[i], a, key, u) && Brought(states[i], a, key, v) && u.timestamp == v.timestamp ==> u == v
    ensures Entry(states[i], a, key) == Entry(states'[j], b, key)
  {
    EntryIsNewestWrite(c, states, steps, i, a, key);
    EntryIsNewestWrite(c, states', steps', j, b, key);
  }

  // --- reads see quorums ---

  predicate Returned(s: State, g: nat, key: Key) {
    g in s.gets && s.gets[g].key == key && s.gets[g].result.Some? && s.gets[g].result.value.GetOk?
  }

  function Result(s: State, g: nat, key: Key): Option<Versioned>
    requires Returned(s, g, key)
  {
    s.gets[g].result.value.winner
  }

  function Responders(op: GetOp): set<NodeId> {
    set i | 0 <= i < |op.responses| :: op.responses[i].0
  }

  // A get that starts after state i reads at least ts wherever state i already held it.
  lemma {:induction false} LaterReads(c: Config, states: seq<State>, steps: seq<Step>, i: nat, j: nat, g: nat,
                                      node: NodeId, key: Key, ts: nat)
    requires IsRun(c, states, steps) && i <= j < |states| && g !in states[i].gets
    requires AtLeast(Entry(states[i], node, key), ts) && Unwiped(steps, i, j, node)
    ensures ReadAtLeast(states[j], g, node, key, ts)
    decreases j
  {
    if i < j {
      StillAtLeast(c, states, steps, i, j - 1, node, key, ts);
      LaterReads(c, states, steps, i, j - 1, g, node, key, ts);
      LaterReadMove(c, states, steps, j - 1, g, node, key, ts);
    }
  }

  lemma LaterReadMove(c: Config, states: seq<State>, steps: seq<Step>, i: nat, g: nat, node: NodeId, key: Key, ts: nat)
    requires Path(c, states, steps) && i < |steps|
    requires ReadAtLeast(states[i], g, node, key, ts) && AtLeast(Entry(states[i], node, key), ts)
    ensures ReadAtLeast(states[i + 1], g, node, key, ts)
  {
    LaterReadStep(c, states[i], steps[i], g, node, key, ts);
  }

  lemma RespondersCount(c: Config, op: GetOp)
    requires GetBooks(c, op)
    ensures |Responders(op)| == |op.responses| && Responders(op) <= Elements(Preferred(c, op.key))
  {
    var nodes := seq(|op.responses|, i requires 0 <= i < |op.responses| => op.responses[i].0);
    DistinctCount(nodes);
    assert Elements(nodes) == Responders(op) by {
      forall a | a in Responders(op) ensures a in nodes {
        var i :| 0 <= i < |op.responses| && op.responses[i].0 == a;
        assert nodes[i] == a;
      }
    }
  }

  lemma PreferredCount(c: Config, key: Key)
    requires ValidConfig(c) && c.ring(key).Some?
    ensures |Elements(Preferred(c, key))| == c.n
  {
    DistinctCount(Preferred(c, key));
  }

  lemma WinnerAtLeast(responses: seq<Response>, i: nat, ts: nat)
    requires i < |responses| && AtLeast(responses[i].1, ts)
    ensures AtLeast(Winner(responses), ts)
  {
    WinnerAbsent(responses);
    var j := WinnerIndex(responses);
  }

  // The quorum argument: if a set of preferred nodes holds at least ts, any later read whose responders are too many
  // to miss all of them returns at least ts, whatever runs in between.
  lemma ReadSeesQuorum(c: Config, states: seq<State>, steps: seq<Step>, i: nat, j: nat, g: nat, key: Key,
                       held: set<NodeId>, ts: nat)
    requires ValidConfig(c) && IsRun(c, states, steps) && i <= j < |states|
    requires g !in states[i].gets && Returned(states[j], g, key)
    requires held <= Elements(Preferred(c, key))
    requires forall a :: a in held ==> AtLeast(Entry(states[i], a, key), ts) && Unwiped(steps, i, j, a)
    requires |held| + |states[j].gets[g].responses| > c.n
    ensures AtLeast(Result(states[j], g, key), ts)
  {
    RunKeepsInv(c, states, steps, j);
    var op := states[j].gets[g];
    assert GetBooks(c, op);
    RespondersCount(c, op);
    PreferredCount(c, key);
    var a := Intersect(held, Responders(op), Elements(Preferred(c, key)));
    var m: nat :| m < |op.responses| && op.responses[m].0 == a;
    LaterReads(c, states, steps, i, j, g, a, key, ts);
    WinnerAtLeast(op.responses, m, ts);
  }

  // The nodes that acknowledged a put and were not wiped between carrying out its write and state j.
  function Holding(s: State, p: nat): set<NodeId>
    requires p in s.puts
  {
    set a | a in s.puts[p].acked && Request(p, s.puts[p], a) in s.standing
  }

  // Quorum visibility over every interleaving.
  lemma QuorumVisibility(c: Config, states: seq<State>, steps: seq<Step>, i: nat, j: nat, p: nat, g: nat,
                         held: set<NodeId>)
    requires ValidConfig(c) && IsRun(c, states, steps) && i <= j < |states|
    requires p in states[i].puts && g !in states[i].gets && Returned(states[j], g, states[i].puts[p].key)
    requires held == set a | a in Holding(states[i], p) && Unwiped(steps, i, j, a)
    requires |held| + |states[j].gets[g].responses| > c.n
    ensures AtLeast(Result(states[j], g, states[i].puts[p].key), states[i].puts[p].value.timestamp)
  {
    RunKeepsInv(c, states, steps, i);
    var op := states[i].puts[p];
    assert PutBooks(c, op);
    forall a | a in held ensures AtLeast(Entry(states[i], a, op.key), op.value.timestamp) {
      assert Request(p, op, a) in states[i].standing;
    }
    ReadSeesQuorum(c, states, steps, i, j, g, op.key, held, op.value.timestamp);
  }

  // --- who a put counts ---

  function HintedTargets(op: PutOp): set<NodeId> {
    set i | 0 <= i < |op.hintedAt| && i < |op.failed| :: op.failed[i]
  }

  function HintHolders(c: Config, op: PutOp): set<NodeId> {
    set i | 0 <= i < |op.hintedAt| && op.hintedAt[i] < |Candidates(c, op.key)| :: Candidates(c, op.key)[op.hintedAt[i]]
  }

  lemma RingSplits(c: Config, key: Key)
    requires ValidConfig(c) && c.ring(key).Some?
    ensures Distinct(Preferred(c, key)) && Distinct(Candidates(c, key))
    ensures Elements(Preferred(c, key)) !! Elements(Candidates(c, key))
  {
    var order := c.ring(key).value;
    forall a | a in Preferred(c, key) ensures a !in Candidates(c, key) {
      var i :| 0 <= i < c.n && order[i] == a;
      assert forall j :: 0 <= j < |order| - c.n ==> Candidates(c, key)[j] == order[c.n + j] != a;
    }
  }

  lemma TargetsCount(op: PutOp)
    requires |op.hintedAt| <= |op.failed| && Distinct(op.failed)
    ensures |HintedTargets(op)| == |op.hintedAt| && HintedTargets(op) <= Elements(op.failed)
  {
    var targets := op.failed[..|op.hintedAt|];
    DistinctCount(targets);
    assert Elements(targets) == HintedTargets(op) by {
      assert forall i :: 0 <= i < |targets| ==> targets[i] == op.failed[i];
    }
  }

  lemma HoldersCount(c: Config, op: PutOp)
    requires Distinct(Candidates(c, op.key))
    requires forall i :: 0 <= i < |op.hintedAt| ==> op.hintedAt[i] < |Candidates(c, op.key)|
    requires forall i, j :: 0 <= i < j < |op.hintedAt| ==> op.hintedAt[i] < op.hintedAt[j]
    ensures |HintHolders(c, op)| == |op.hintedAt| && HintHolders(c, op) <= Elements(Candidates(c, op.key))
  {
    var k, candidates := |op.hintedAt|, Candidates(c, op.key);
    var holders := seq(k, i requires 0 <= i < k => candidates[op.hintedAt[i]]);
    DistinctCount(holders);
    assert Elements(holders) == HintHolders(c, op) by {
      forall a | a in HintHolders(c, op) ensures a in holders {
        var i :| 0 <= i < k && candidates[op.hintedAt[i]] == a;
        assert holders[i] == a;
      }
    }
  }

  // The books of a put in numbers.
  lemma BooksCount(c: Config, op: PutOp)
    requires ValidConfig(c) && PutBooks(c, op)
    ensures op.acked !! HintHolders(c, op) && op.acked !! HintedTargets(op)
    ensures op.acked + HintedTargets(op) <= Elements(Preferred(c, op.key))
    ensures |op.acked + HintHolders(c, op)| == |op.acked| + |op.hintedAt|
    ensures |op.acked + HintedTargets(op)| == |op.acked| + |op.hintedAt|
    ensures |op.acked| + |op.hintedAt| + |op.panicked| <= c.n
  {
    var preferred := Elements(Preferred(c, op.key));
    RingSplits(c, op.key);
    TargetsCount(op);
    HoldersCount(c, op);
    PreferredCount(c, op.key);
    SubsetCount(op.acked + HintedTargets(op) + op.panicked, preferred);
    assert |op.acked + HintedTargets(op) + op.panicked| == |op.acked + HintedTargets(op)| + |op.panicked|;
  }

  // What a finished put has to show for its result.
  lemma BooksDecide(c: Config, op: PutOp)
    requires PutBooks(c, op) && op.result.Some? && |op.acked + HintHolders(c, op)| == |op.acked| + |op.hintedAt|
    ensures op.result.value == PutOk <==> |op.acked + HintHolders(c, op)| >= c.w
    ensures HintedTargets(op) != Elements(op.failed) ==> op.cursor == |Candidates(c, op.key)|
  {
    if |op.hintedAt| == |op.failed| {
      assert HintedTargets(op) == Elements(op.failed);
    }
  }

  // At any moment of any run: acknowledging nodes and hint holders are all different, and so are acknowledging nodes
  // and hinted targets; together they are at most n, panicked tasks included; an Ok result means at least w of them.
  // A failed node goes without a hint only if every candidate was asked. Each acknowledgement, of a write or of a hint,
  // follows the carrying out of its request, and an acknowledging node that was not wiped since still covers the write.
  lemma PutAccounting(c: Config, states: seq<State>, steps: seq<Step>, i: nat, p: nat)
    requires ValidConfig(c) && IsRun(c, states, steps) && i < |states| && p in states[i].puts
    ensures var op := states[i].puts[p];
            && op.acked !! HintHolders(c, op) && op.acked !! HintedTargets(op)
            && op.acked + HintedTargets(op) <= Elements(Preferred(c, op.key))
            && |op.acked + HintHolders(c, op)| == |op.acked + HintedTargets(op)| == |op.acked| + |op.hintedAt|
            && |op.acked| + |op.hintedAt| + |op.panicked| <= c.n
            && (op.result.Some? ==> (op.result.value == PutOk <==> |op.acked + HintHolders(c, op)| >= c.w))
            && (op.result.Some? && HintedTargets(op) != Elements(op.failed) ==> op.cursor == |Candidates(c, op.key)|)
            && (forall a :: a in op.acked ==> Request(p, op, a) in states[i].served)
            && PutBooks(c, op)
            && (forall k :: 0 <= k < |op.hintedAt| ==> HintMsg(HintSlot(c, op, k), op.value, p) in states[i].hintServed)
            && (forall a :: a in Holding(states[i], p) ==> AtLeast(Entry(states[i], a, op.key), op.value.timestamp))
  {
    RunKeepsInv(c, states, steps, i);
    var op := states[i].puts[p];
    assert PutBooks(c, op) && Earned(c, states[i], p, op);
    BooksCount(c, op);
    if op.result.Some? {
      BooksDecide(c, op);
    }
    forall a | a in Holding(states[i], p) ensures AtLeast(Entry(states[i], a, op.key), op.value.timestamp) {
      assert Request(p, op, a) in states[i].standing;
    }
  }

  // At any moment of any run: a get has at most one response a preferred node, succeeds exactly if it has r of them,
  // and then returns the last of the newest versions among them, or nothing if none of them had any.
  lemma GetAccounting(c: Config, states: seq<State>, steps: seq<Step>, i: nat, g: nat)
    requires ValidConfig(c) && IsRun(c, states, steps) && i < |states| && g in states[i].gets
    ensures var op := states[i].gets[g];
            && Responders(op) <= Elements(Preferred(c, op.key)) && |Responders(op)| == |op.responses| <= c.n
            && (op.result.Some? ==> (op.result.value.GetOk? <==> |op.responses| >= c.r))
            && (Returned(states[i], g, op.key) ==>
                  && (forall v :: Result(states[i], g, op.key) == Some(v) <==> LastGreatest(op.responses, v))
                  && (Result(states[i], g, op.key).None? <==>
                      forall m :: 0 <= m < |op.responses| ==> op.responses[m].1.None?))
  {
    RunKeepsInv(c, states, steps, i);
    var op := states[i].gets[g];
    assert GetBooks(c, op);
    RespondersCount(c, op);
    PreferredCount(c, op.key);
    SubsetCount(Responders(op), Elements(Preferred(c, op.key)));
    WinnerAbsent(op.responses);
    forall v ensures Winner(op.responses) == Some(v) <==> LastGreatest(op.responses, v) {
      WinnerIsLastGreatest(op.responses, v);
    }
  }

  // --- sloppy writes become strict ---

  // No node that a put counts was wiped since it carried out the write, or is wiped between state i and state j.
  ghost predicate CountedStand(states: seq<State>, steps: seq<Step>, i: nat, j: nat, p: nat)
    requires i < |states| && p in states[i].puts
  {
    && states[i].puts[p].acked == Holding(states[i], p)
    && forall a :: a in states[i].puts[p].acked + HintedTargets(states[i].puts[p]) ==> Unwiped(steps, i, j, a)
  }

  // A put that returned Ok, once each of its hinted targets holds its hint or something newer, is visible to every
  // later successful read, if w + r > n.
  lemma SloppyBecomesStrict(c: Config, states: seq<State>, steps: seq<Step>, i: nat, j: nat, p: nat, g: nat)
    requires ValidConfig(c) && c.w + c.r > c.n && IsRun(c, states, steps) && i <= j < |states|
    requires p in states[i].puts && states[i].puts[p].result == Some(PutOk)
    requires forall t :: t in HintedTargets(states[i].puts[p]) ==>
             AtLeast(Entry(states[i], t, states[i].puts[p].key), states[i].puts[p].value.timestamp)
    requires CountedStand(states, steps, i, j, p)
    requires g !in states[i].gets && Returned(states[j], g, states[i].puts[p].key)
    ensures AtLeast(Result(states[j], g, states[i].puts[p].key), states[i].puts[p].value.timestamp)
  {
    var op := states[i].puts[p];
    PutAccounting(c, states, steps, i, p);
    RunKeepsInv(c, states, steps, j);
    assert GetBooks(c, states[j].gets[g]);
    var held := op.acked + HintedTargets(op);
    assert forall a :: a in op.acked ==> a in Holding(states[i], p);
    ReadSeesQuorum(c, states, steps, i, j, g, op.key, held, op.value.timestamp);
  }

  // --- read repair and monotonic reads ---

  // What a get read at a node not wiped since it started is still covered there.
  lemma {:induction false} ReadsStand(c: Config, states: seq<State>, steps: seq<Step>, i: nat, j: nat, g: nat,
                                      node: NodeId, ts: nat)
    requires IsRun(c, states, steps) && i <= j < |states| && g !in states[i].gets && Unwiped(steps, i, j, node)
    ensures ReadStands(states[j], g, node, ts)
  {
    if i < j {
      ReadsStand(c, states, steps, i, j - 1, g, node, ts);
      ReadStandsStep(c, states[j - 1], steps[j - 1], g, node, ts);
    }
  }

  // All repairs of a finished get have been carried out, with no wipe of a responder since.
  ghost predicate RepairsDelivered(s: State, g: nat) {
    g in s.gets && RepairMsgs(g, s.gets[g]) <= s.standing
  }

  lemma StaleIsRepaired(g: nat, op: GetOp, i: nat, winner: Versioned)
    requires i < |op.responses| && op.result == Some(GetOk(Some(winner)))
             && NeedsRepair(op.responses[i].1, winner.timestamp)
    ensures WriteMsg(op.responses[i].0, op.key, winner, FromRepair(g)) in RepairMsgs(g, op)
  {
    RepairsMembers(op.responses, winner.timestamp);
  }

  // After a get and the delivery of its repairs every responder holds the winner's timestamp or a newer one.
  lemma RepairConvergence(c: Config, states: seq<State>, steps: seq<Step>, i: nat, j: nat, g: nat, key: Key)
    requires ValidConfig(c) && IsRun(c, states, steps) && i <= j < |states| && g !in states[i].gets
    requires Returned(states[j], g, key) && Result(states[j], g, key).Some? && RepairsDelivered(states[j], g)
    requires forall a :: a in Responders(states[j].gets[g]) ==> Unwiped(steps, i, j, a)
    ensures forall a :: a in Responders(states[j].gets[g]) ==>
            AtLeast(Entry(states[j], a, key), Result(states[j], g, key).value.timestamp)
  {
    RunKeepsInv(c, states, steps, j);
    var op := states[j].gets[g];
    assert GetBooks(c, op);
    var winner := Result(states[j], g, key).value;
    forall a | a in Responders(op) ensures AtLeast(Entry(states[j], a, key), winner.timestamp) {
      var m: nat :| m < |op.responses| && op.responses[m].0 == a;
      if NeedsRepair(op.responses[m].1, winner.timestamp) {
        StaleIsRepaired(g, op, m, winner);
        assert WriteMsg(a, op.key, winner, FromRepair(g)) in states[j].standing;
      } else {
        ReadsStand(c, states, steps, i, j, g, a, winner.timestamp);
      }
    }
  }

  // Equal timestamps of a key mean equal data, as far as the puts of this state go.
  ghost predicate TimestampsUnique(s: State) {
    forall p, q | p in s.puts && q in s.puts && s.puts[p].key == s.puts[q].key
        && s.puts[p].value.timestamp == s.puts[q].value.timestamp ::
      s.puts[p].value == s.puts[q].value
  }

  lemma GenuineAgree(s: State, key: Key, u: Versioned, v: Versioned)
    requires TimestampsUnique(s) && Genuine(s, key, u) && Genuine(s, key, v) && u.timestamp == v.timestamp
    ensures u == v
  {
  }

  // A version of a key that is anywhere in the system: stored, parked, in flight, in a delivery's snapshot, read by a
  // get, or returned by one.
  ghost predicate Somewhere(s: State, key: Key, v: Versioned) {
    || (exists a :: Entry(s, a, key) == Some(v))
    || (exists h :: h in s.hints && h.key == key && s.hints[h] == v)
    || (exists m :: m in s.writes && m.key == key && m.value == v)
    || (exists h :: h in s.hintMsgs && h.slot.key == key && h.value == v)
    || (exists d :: d in s.deliveries && s.deliveries[d].slot.key == key && s.deliveries[d].value == v)
    || (exists g, a :: g in s.gets && s.gets[g].key == key && a in s.gets[g].seen && s.gets[g].seen[a] == Some(v))
    || (exists g :: Returned(s, g, key) && Result(s, g, key) == Some(v))
  }

  lemma SomewhereIsGenuine(c: Config, s: State, key: Key, v: Versioned)
    requires Inv(c, s) && Somewhere(s, key, v)
    ensures Genuine(s, key, v)
  {
    if a :| Entry(s, a, key) == Some(v) {
      EntryGenuine(s, a, key);
    } else if g :| Returned(s, g, key) && Result(s, g, key) == Some(v) {
      assert GetBooks(c, s.gets[g]);
      WinnerWasSeen(c, s.gets[g]);
    }
  }

  // Every version anywhere was written by a put of its key. So where timestamps determine values, equal timestamps of a
  // key mean equal data in any two places.
  lemma SystemAgreement(c: Config, states: seq<State>, steps: seq<Step>, i: nat)
    requires IsRun(c, states, steps) && i < |states|
    ensures forall key, v :: Somewhere(states[i], key, v) ==> Genuine(states[i], key, v)
    ensures TimestampsUnique(states[i]) ==>
              forall key, u, v ::
                Somewhere(states[i], key, u) && Somewhere(states[i], key, v) && u.timestamp == v.timestamp ==> u == v
  {
    RunKeepsInv(c, states, steps, i);
    var s := states[i];
    forall key, v | Somewhere(s, key, v) ensures Genuine(s, key, v) {
      SomewhereIsGenuine(c, s, key, v);
    }
    if TimestampsUnique(s) {
      forall key, u, v | Somewhere(s, key, u) && Somewhere(s, key, v) && u.timestamp == v.timestamp ensures u == v {
        GenuineAgree(s, key, u, v);
      }
    }
  }

  lemma EntryGenuine(s: State, a: NodeId, key: Key)
    requires AllGenuine(s) && Entry(s, a, key).Some?
    ensures Genuine(s, key, Entry(s, a, key).value)
  {
    assert Place(a, key) in s.replicas;
  }

  lemma EntryAgreesWithResult(c: Config, s: State, g: nat, key: Key, a: NodeId)
    requires Inv(c, s) && TimestampsUnique(s) && Returned(s, g, key) && Result(s, g, key).Some?
    requires Entry(s, a, key).Some? && Entry(s, a, key).value.timestamp == Result(s, g, key).value.timestamp
    ensures Entry(s, a, key) == Result(s, g, key)
  {
    SomewhereIsGenuine(c, s, key, Entry(s, a, key).value);
    SomewhereIsGenuine(c, s, key, Result(s, g, key).value);
    GenuineAgree(s, key, Entry(s, a, key).value, Result(s, g, key).value);
  }

  // If all n preferred nodes responded and timestamps determine values, all of them hold exactly the winner once the
  // repairs are in, if and only if no newer write has reached one of them.
  lemma FullReadConverges(c: Config, states: seq<State>, steps: seq<Step>, i: nat, j: nat, g: nat, key: Key)
    requires ValidConfig(c) && IsRun(c, states, steps) && i <= j < |states| && g !in states[i].gets
    requires Returned(states[j], g, key) && Result(states[j], g, key).Some? && RepairsDelivered(states[j], g)
    requires forall a :: a in Preferred(c, key) ==> Unwiped(steps, i, j, a)
    requires |states[j].gets[g].responses| == c.n && TimestampsUnique(states[j])
    ensures (forall a :: a in Preferred(c, key) ==> Entry(states[j], a, key) == Result(states[j], g, key))
            <==> forall a :: a in Preferred(c, key) ==>
                !AtLeast(Entry(states[j], a, key), Result(states[j], g, key).value.timestamp + 1)
  {
    RunKeepsInv(c, states, steps, j);
    var op := states[j].gets[g];
    assert GetBooks(c, op);
    RespondersCount(c, op);
    PreferredCount(c, key);
    SameSizeSubset(Responders(op), Elements(Preferred(c, key)));
    forall a | a in Responders(op) ensures Unwiped(steps, i, j, a) {
      assert a in Elements(Preferred(c, key));
    }
    RepairConvergence(c, states, steps, i, j, g, key);
    var winner := Result(states[j], g, key).value;
    forall a | a in Preferred(c, key) && !AtLeast(Entry(states[j], a, key), winner.timestamp + 1)
      ensures Entry(states[j], a, key) == Some(winner)
    {
      assert a in Elements(Preferred(c, key));
      EntryAgreesWithResult(c, states[j], g, key, a);
    }
  }

  lemma SameSizeSubset<T>(a: set<T>, b: set<T>)
    requires a <= b && |a| == |b|
    ensures a == b
  {
    assert |b - a| == |b| - |a|;
  }

  // Monotonic reads: once a get's repairs are delivered, a get that starts later never returns anything older, if the
  // two sets of responders must overlap (always so when 2r > n).
  lemma MonotonicReads(c: Config, states: seq<State>, steps: seq<Step>, i: nat, j: nat, k: nat, g1: nat,
                       g2: nat, key: Key)
    requires ValidConfig(c) && IsRun(c, states, steps) && i <= j <= k < |states|
    requires g1 !in states[i].gets && Returned(states[j], g1, key) && Result(states[j], g1, key).Some?
             && RepairsDelivered(states[j], g1)
    requires g2 !in states[j].gets && Returned(states[k], g2, key)
    requires forall a :: a in Responders(states[j].gets[g1]) ==> Unwiped(steps, i, k, a)
    requires |states[j].gets[g1].responses| + |states[k].gets[g2].responses| > c.n || 2 * c.r > c.n
    ensures AtLeast(Result(states[k], g2, key), Result(states[j], g1, key).value.timestamp)
  {
    RunKeepsInv(c, states, steps, j);
    RunKeepsInv(c, states, steps, k);
    var op := states[j].gets[g1];
    assert GetBooks(c, op) && GetBooks(c, states[k].gets[g2]);
    RespondersCount(c, op);
    forall a | a in Responders(op) ensures Unwiped(steps, i, j, a) && Unwiped(steps, j, k, a) {
      assert Unwiped(steps, i, k, a);
    }
    RepairConvergence(c, states, steps, i, j, g1, key);
    ReadSeesQuorum(c, states, steps, j, k, g2, key, Responders(op), Result(states[j], g1, key).value.timestamp);
  }
}
