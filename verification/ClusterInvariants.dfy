// What every step of the protocol keeps.
module ClusterInvariants {
  import opened Types
  import opened Lww
  import opened Hints
  import opened Coordinator
  import opened Handoff
  import opened Cluster

  // --- replicas only move forward ---

  lemma ReplicaMonotone(c: Config, s: State, step: Step, node: NodeId, key: Key, ts: nat)
    requires Enabled(c, s, step) && AtLeast(Entry(s, node, key), ts)
    requires step.Wipe? ==> step.node != node
    ensures AtLeast(Entry(Next(c, s, step), node, key), ts)
  {
  }

  // The only steps that change an entry: a newer write and a wipe. Data at equal timestamps stays different.
  lemma EntryChangesIff(c: Config, s: State, step: Step, node: NodeId, key: Key)
    requires Enabled(c, s, step) && Entry(s, node, key).Some?
    ensures Entry(Next(c, s, step), node, key) != Entry(s, node, key)
            <==> (step.Wipe? && step.node == node)
                 || (step.ServeWrite? && step.m.dst == node && step.m.key == key
                      && step.m.value.timestamp > Entry(s, node, key).value.timestamp)
  {
    if step.ServeWrite? && step.m.dst == node && step.m.key == key {
      assert Entry(Next(c, s, step), node, key) == Some(Merge(Entry(s, node, key), step.m.value));
    }
  }

  // --- requests ---

  ghost predicate WritesInv(s: State) {
    && s.served <= s.writes && s.standing <= s.served && s.hintServed <= s.hintMsgs
    // A write carried out since the node was last wiped is still covered there.
    && forall m :: m in s.standing ==> AtLeast(Entry(s, m.dst, m.key), m.value.timestamp)
  }

  lemma WritesInvStep(c: Config, s: State, step: Step)
    requires Enabled(c, s, step) && WritesInv(s)
    ensures WritesInv(Next(c, s, step))
  {
    var t := Next(c, s, step);
    forall m | m in t.standing ensures AtLeast(Entry(t, m.dst, m.key), m.value.timestamp) {
      if m in s.standing {
        ReplicaMonotone(c, s, step, m.dst, m.key, m.value.timestamp);
      }
    }
  }

  lemma ServedStandsStep(c: Config, s: State, step: Step, m: WriteMsg)
    requires Enabled(c, s, step) && (m in s.served ==> m in s.standing)
    requires step.Wipe? ==> step.node != m.dst
    ensures m in Next(c, s, step).served ==> m in Next(c, s, step).standing
  {
  }

  // --- where replica entries come from ---

  // A version that some write carried out at the node since its last wipe has brought.
  ghost predicate Brought(s: State, node: NodeId, key: Key, v: Versioned) {
    exists m :: m in s.standing && m.dst == node && m.key == key && m.value == v
  }

  // Every replica entry is one of the writes carried out there since the last wipe, and requests of hint deliveries
  // belong to deliveries that have begun.
  ghost predicate SourcesInv(s: State) {
    && (forall e :: e in s.replicas ==> Brought(s, e.node, e.key, s.replicas[e]))
    && (forall m :: m in s.writes && m.origin.FromHint? ==> m.origin.delivery in s.deliveries)
  }

  lemma EntriesStayBrought(c: Config, s: State, step: Step)
    requires Enabled(c, s, step) && SourcesInv(s)
    ensures forall e :: e in Next(c, s, step).replicas ==>
            Brought(Next(c, s, step), e.node, e.key, Next(c, s, step).replicas[e])
  {
    var t := Next(c, s, step);
    forall e | e in t.replicas ensures Brought(t, e.node, e.key, t.replicas[e]) {
      if step.ServeWrite? && e == Place(step.m.dst, step.m.key) && t.replicas[e] == step.m.value {
        assert step.m in t.standing;
      } else {
        assert Brought(s, e.node, e.key, s.replicas[e]);
        var m :| m in s.standing && m.dst == e.node && m.key == e.key && m.value == s.replicas[e];
        assert m in t.standing;
      }
    }
  }

  lemma SourcesInvStep(c: Config, s: State, step: Step)
    requires Enabled(c, s, step) && SourcesInv(s)
    ensures SourcesInv(Next(c, s, step))
  {
    EntriesStayBrought(c, s, step);
  }

  // --- puts ---

  // The books of one put: each preferred node is under at most one heading, candidates are used in order and at most
  // once, and the result counts what is in the books.
  ghost predicate PutBooks(c: Config, op: PutOp) {
    var preferred := Elements(Preferred(c, op.key));
    && c.ring(op.key).Some?
    && op.acked <= preferred && Elements(op.failed) <= preferred && op.panicked <= preferred
    && Distinct(op.failed) && op.acked !! Elements(op.failed) && op.panicked !! op.acked + Elements(op.failed)
    && |op.hintedAt| <= |op.failed|
    && (op.waiting ==> |op.hintedAt| < |op.failed| && 0 < op.cursor)
    && op.cursor <= |Candidates(c, op.key)|
    && (forall i :: 0 <= i < |op.hintedAt| ==>
         op.hintedAt[i] < op.cursor && (op.waiting ==> op.hintedAt[i] < op.cursor - 1))
    && (forall i, j :: 0 <= i < j < |op.hintedAt| ==> op.hintedAt[i] < op.hintedAt[j])
    && (op.result.Some? ==> forall a :: a in Preferred(c, op.key) ==> !Undecided(c, op, a))
    // A failed node goes without a hint only if every candidate was asked.
    && (op.result.Some? ==> |op.hintedAt| == |op.failed| || op.cursor == |Candidates(c, op.key)|)
    && (op.result.Some? ==> op.result.value == var acks := |op.acked| + |op.hintedAt|; if acks >= c.w then PutOk
         else PutQuorumFailed(acks, c.w))
  }

  lemma AckKeepsBooks(c: Config, op: PutOp, step: Step)
    requires PutBooks(c, op) && PutEnabled(c, op, step) && (step.WriteAcked? || step.WritePanicked?)
    ensures PutBooks(c, PutNext(c, op, step))
  {
    assert step.node in Elements(Preferred(c, op.key)) && step.node !in Elements(op.failed);
  }

  lemma FailureKeepsBooks(c: Config, op: PutOp, step: Step)
    requires PutBooks(c, op) && PutEnabled(c, op, step) && step.WriteFailed?
    ensures PutBooks(c, PutNext(c, op, step))
  {
    assert step.node in Elements(Preferred(c, op.key)) && step.node !in Elements(op.failed);
    assert Elements(op.failed + [step.node]) == Elements(op.failed) + {step.node};
  }

  lemma HintPhaseKeepsBooks(c: Config, op: PutOp, step: Step)
    requires PutBooks(c, op) && PutEnabled(c, op, step)
    requires step.TryCandidate? || step.HintAcked? || step.HintFailed? || step.FinishPut?
    ensures PutBooks(c, PutNext(c, op, step))
  {
  }

  // Where the i-th failed node of a put is hinted.
  function HintSlot(c: Config, op: PutOp, i: nat): Slot
    requires i < |op.hintedAt| && i < |op.failed| && op.hintedAt[i] < |Candidates(c, op.key)|
  {
    Slot(Candidates(c, op.key)[op.hintedAt[i]], op.failed[i], op.key)
  }

  // Every acknowledgement in the books of a put was earned.
  ghost predicate Earned(c: Config, s: State, p: nat, op: PutOp)
    requires PutBooks(c, op)
  {
    && (forall a :: a in op.acked ==> Request(p, op, a) in s.served)
    && (forall i :: 0 <= i < |op.hintedAt| ==> HintMsg(HintSlot(c, op, i), op.value, p) in s.hintServed)
  }

  ghost predicate PutsInv(c: Config, s: State) {
    forall p :: p in s.puts ==> PutBooks(c, s.puts[p]) && Earned(c, s, p, s.puts[p])
  }

  function TouchedPut(step: Step): Option<nat> {
    match step
    case StartPut(p, _, _) => Some(p)
    case WriteAcked(p, _) => Some(p)
    case WriteFailed(p, _) => Some(p)
    case WritePanicked(p, _) => Some(p)
    case TryCandidate(p) => Some(p)
    case HintAcked(p) => Some(p)
    case HintFailed(p) => Some(p)
    case FinishPut(p) => Some(p)
    case _ => None
  }

  lemma ServedGrow(c: Config, s: State, step: Step)
    requires Enabled(c, s, step)
    ensures s.served <= Next(c, s, step).served && s.hintServed <= Next(c, s, step).hintServed
  {
  }

  lemma PutsStay(c: Config, s: State, step: Step)
    requires Enabled(c, s, step) && TouchedPut(step).None?
    ensures Next(c, s, step).puts == s.puts
  {
  }

  lemma TouchedPutMoves(c: Config, s: State, step: Step)
    requires Enabled(c, s, step) && TouchedPut(step).Some? && !step.StartPut?
    ensures var t, p := Next(c, s, step), TouchedPut(step).value;
            && p in s.puts && PutEnabled(c, s.puts[p], step) && t.puts == s.puts[p := PutNext(c, s.puts[p], step)]
            && t.served == s.served && t.hintServed == s.hintServed
  {
  }

  lemma PutsFrame(c: Config, s: State, step: Step)
    requires Enabled(c, s, step)
    ensures var t := Next(c, s, step);
            && s.served <= t.served && s.hintServed <= t.hintServed
            && s.puts.Keys <= t.puts.Keys
            && (forall p :: p in t.puts && TouchedPut(step) != Some(p) ==> p in s.puts && t.puts[p] == s.puts[p])
            && (TouchedPut(step).Some? && !step.StartPut? ==>
                  var p := TouchedPut(step).value;
                  p in s.puts && PutEnabled(c, s.puts[p], step) && t.puts[p] == PutNext(c, s.puts[p], step)
                  && t.served == s.served && t.hintServed == s.hintServed)
  {
    ServedGrow(c, s, step);
    if TouchedPut(step).None? {
      PutsStay(c, s, step);
    } else if !step.StartPut? {
      TouchedPutMoves(c, s, step);
    }
  }

  lemma PutsInvStep(c: Config, s: State, step: Step)
    requires Enabled(c, s, step) && PutsInv(c, s)
    ensures PutsInv(c, Next(c, s, step))
  {
    var t := Next(c, s, step);
    PutsFrame(c, s, step);
    forall p | p in t.puts ensures PutBooks(c, t.puts[p]) && Earned(c, t, p, t.puts[p]) {
      if TouchedPut(step) == Some(p) {
        if step.StartPut? {
          StartKeepsBooks(c, s, step);
        } else {
          StepKeepsBooks(c, s.puts[p], step);
          StepKeepsEarned(c, s, step, p, s.puts[p]);
        }
      }
    }
  }

  lemma StartKeepsBooks(c: Config, s: State, step: Step)
    requires Enabled(c, s, step) && step.StartPut?
    ensures var t := Next(c, s, step);
            PutBooks(c, t.puts[step.p]) && Earned(c, t, step.p, t.puts[step.p])
  {
  }

  lemma StepKeepsBooks(c: Config, op: PutOp, step: Step)
    requires PutBooks(c, op) && PutEnabled(c, op, step)
    ensures PutBooks(c, PutNext(c, op, step))
  {
    if step.WriteFailed? {
      FailureKeepsBooks(c, op, step);
    } else if step.WriteAcked? || step.WritePanicked? {
      AckKeepsBooks(c, op, step);
    } else {
      HintPhaseKeepsBooks(c, op, step);
    }
  }

  // No step counts an acknowledgement that was not earned.
  lemma StepKeepsEarned(c: Config, s: State, step: Step, p: nat, op: PutOp)
    requires PutBooks(c, op) && PutEnabled(c, op, step) && PutBooks(c, PutNext(c, op, step)) && Earned(c, s, p, op)
    requires step.WriteAcked? ==> Request(p, op, step.node) in s.served
    requires step.HintAcked? ==> HintRequest(c, p, op) in s.hintServed
    ensures Earned(c, s, p, PutNext(c, op, step))
  {
    var op' := PutNext(c, op, step);
    forall a | a in op'.acked ensures Request(p, op', a) in s.served {
      assert Request(p, op', a) == Request(p, op, a);
    }
    forall i | 0 <= i < |op'.hintedAt| ensures HintMsg(HintSlot(c, op', i), op'.value, p) in s.hintServed {
      if i < |op.hintedAt| {
        assert HintSlot(c, op', i) == HintSlot(c, op, i);
      }
    }
  }

  // --- gets ---

  ghost predicate GetBooks(c: Config, op: GetOp) {
    && c.ring(op.key).Some?
    && op.seen.Keys <= Elements(Preferred(c, op.key))
    && (forall i :: 0 <= i < |op.responses| ==>
         op.responses[i].0 in op.seen && op.responses[i].1 == op.seen[op.responses[i].0])
    && (forall i, j :: 0 <= i < j < |op.responses| ==> op.responses[i].0 != op.responses[j].0)
    && (op.result.Some? ==> op.result.value == if |op.responses| < c.r then GetQuorumFailed(|op.responses|, c.r)
         else GetOk(Winner(op.responses)))
  }

  ghost predicate GetsInv(c: Config, s: State) {
    forall g :: g in s.gets ==> GetBooks(c, s.gets[g]) && RepairMsgs(g, s.gets[g]) <= s.writes
  }

  function TouchedGet(step: Step): Option<nat> {
    match step
    case StartGet(g, _) => Some(g)
    case ReadReplica(g, _) => Some(g)
    case Respond(g, _) => Some(g)
    case FinishGet(g) => Some(g)
    case _ => None
  }

  // What a read finds: the replica as it is.
  function Found(s: State, step: Step): Option<Versioned> {
    if step.ReadReplica? && step.g in s.gets then Entry(s, step.node, s.gets[step.g].key) else None
  }

  lemma WritesGrow(c: Config, s: State, step: Step)
    requires Enabled(c, s, step)
    ensures s.writes <= Next(c, s, step).writes
  {
  }

  lemma GetsStay(c: Config, s: State, step: Step)
    requires Enabled(c, s, step) && TouchedGet(step).None?
    ensures Next(c, s, step).gets == s.gets
  {
  }

  lemma TouchedGetMoves(c: Config, s: State, step: Step)
    requires Enabled(c, s, step) && TouchedGet(step).Some? && !step.StartGet?
    ensures var t, g := Next(c, s, step), TouchedGet(step).value;
            && g in s.gets && GetEnabled(c, s.gets[g], step)
            && t.gets == s.gets[g := GetNext(c, s.gets[g], step, Found(s, step))]
            && t.replicas == s.replicas
            && (step.FinishGet? ==> RepairMsgs(g, t.gets[g]) <= t.writes)
  {
  }

  lemma GetsFrame(c: Config, s: State, step: Step)
    requires Enabled(c, s, step)
    ensures var t := Next(c, s, step);
            && s.writes <= t.writes && s.gets.Keys <= t.gets.Keys
            && (forall g :: g in t.gets && TouchedGet(step) != Some(g) ==> g in s.gets && t.gets[g] == s.gets[g])
            && (step.StartGet? ==>
                  && step.g !in s.gets && step.g in t.gets
                  && t.gets[step.g] == GetOp(step.key, map[], [], None) && c.ring(step.key).Some?)
            && (TouchedGet(step).Some? && !step.StartGet? ==>
                  var g := TouchedGet(step).value;
                  && g in s.gets && g in t.gets && GetEnabled(c, s.gets[g], step)
                  && t.gets[g] == GetNext(c, s.gets[g], step, Found(s, step))
                  && t.replicas == s.replicas
                  && (step.FinishGet? ==> RepairMsgs(g, t.gets[g]) <= t.writes))
  {
    WritesGrow(c, s, step);
    if TouchedGet(step).None? {
      GetsStay(c, s, step);
    } else if !step.StartGet? {
      TouchedGetMoves(c, s, step);
    }
  }

  lemma GetsInvStep(c: Config, s: State, step: Step)
    requires Enabled(c, s, step) && GetsInv(c, s)
    ensures GetsInv(c, Next(c, s, step))
  {
    var t := Next(c, s, step);
    GetsFrame(c, s, step);
    forall g | g in t.gets ensures GetBooks(c, t.gets[g]) && RepairMsgs(g, t.gets[g]) <= t.writes {
      if TouchedGet(step) == Some(g) && !step.StartGet? {
        assert GetBooks(c, s.gets[g]);
        GetKeepsBooks(c, s.gets[g], step, Found(s, step));
      }
    }
  }

  // What a get has read at a node was read earlier or is what the replica holds now.
  lemma SeenStep(c: Config, s: State, step: Step, g: nat, node: NodeId)
    requires Enabled(c, s, step) && g in Next(c, s, step).gets && node in Next(c, s, step).gets[g].seen
    ensures g in s.gets && Next(c, s, step).gets[g].key == s.gets[g].key
    ensures var op, op' := s.gets[g], Next(c, s, step).gets[g];
            (node in op.seen && op'.seen[node] == op.seen[node])
            || (op'.seen[node] == Entry(s, node, op.key) && Next(c, s, step).replicas == s.replicas)
  {
    GetsFrame(c, s, step);
  }

  // A get has read at least ts at a node, if it has read there at all.
  predicate ReadAtLeast(s: State, g: nat, node: NodeId, key: Key, ts: nat) {
    g in s.gets && s.gets[g].key == key && node in s.gets[g].seen ==> AtLeast(s.gets[g].seen[node], ts)
  }

  lemma LaterReadStep(c: Config, s: State, step: Step, g: nat, node: NodeId, key: Key, ts: nat)
    requires Enabled(c, s, step) && ReadAtLeast(s, g, node, key, ts) && AtLeast(Entry(s, node, key), ts)
    ensures ReadAtLeast(Next(c, s, step), g, node, key, ts)
  {
    var t := Next(c, s, step);
    if g in t.gets && node in t.gets[g].seen {
      SeenStep(c, s, step, g, node);
    }
  }

  // Where a get read at least ts, the replica holds at least ts.
  predicate ReadStands(s: State, g: nat, node: NodeId, ts: nat) {
    g in s.gets && node in s.gets[g].seen && AtLeast(s.gets[g].seen[node], ts) ==>
        AtLeast(Entry(s, node, s.gets[g].key), ts)
  }

  lemma ReadStandsStep(c: Config, s: State, step: Step, g: nat, node: NodeId, ts: nat)
    requires Enabled(c, s, step) && ReadStands(s, g, node, ts) && (step.Wipe? ==> step.node != node)
    ensures ReadStands(Next(c, s, step), g, node, ts)
  {
    var t := Next(c, s, step);
    if g in t.gets && node in t.gets[g].seen && AtLeast(t.gets[g].seen[node], ts) {
      SeenStep(c, s, step, g, node);
      if AtLeast(Entry(s, node, s.gets[g].key), ts) {
        ReplicaMonotone(c, s, step, node, s.gets[g].key, ts);
      }
    }
  }

  lemma GetKeepsBooks(c: Config, op: GetOp, step: Step, found: Option<Versioned>)
    requires GetBooks(c, op) && GetEnabled(c, op, step)
    ensures GetBooks(c, GetNext(c, op, step, found))
  {
    if step.ReadReplica? {
      assert step.node in Elements(Preferred(c, op.key));
    }
  }

  // --- every version comes from a put ---

  // A version of a key that some put wrote.
  ghost predicate Genuine(s: State, key: Key, v: Versioned) {
    exists p :: p in s.puts && s.puts[p].key == key && s.puts[p].value == v
  }

  // Every version anywhere in the system, including what gets have read.
  ghost predicate AllGenuine(s: State) {
    && (forall e :: e in s.replicas ==> Genuine(s, e.key, s.replicas[e]))
    && (forall h :: h in s.hints ==> Genuine(s, h.key, s.hints[h]))
    && (forall m :: m in s.writes ==> Genuine(s, m.key, m.value))
    && (forall h :: h in s.hintMsgs ==> Genuine(s, h.slot.key, h.value))
    && (forall d :: d in s.deliveries ==> Genuine(s, s.deliveries[d].slot.key, s.deliveries[d].value))
    && (forall g, a :: g in s.gets && a in s.gets[g].seen && s.gets[g].seen[a].Some? ==>
         Genuine(s, s.gets[g].key, s.gets[g].seen[a].value))
  }

  lemma GenuineStays(c: Config, s: State, step: Step)
    requires Enabled(c, s, step)
    ensures forall key, v :: Genuine(s, key, v) ==> Genuine(Next(c, s, step), key, v)
  {
    var t := Next(c, s, step);
    PutsFrame(c, s, step);
    forall key, v | Genuine(s, key, v) ensures Genuine(t, key, v) {
      var p :| p in s.puts && s.puts[p].key == key && s.puts[p].value == v;
      assert p in t.puts && t.puts[p].key == key && t.puts[p].value == v;
    }
  }

  // A finished get returns something it read.
  lemma WinnerWasSeen(c: Config, op: GetOp)
    requires GetBooks(c, op) && Winner(op.responses).Some?
    ensures exists a :: a in op.seen && op.seen[a] == Winner(op.responses)
  {
    var i := WinnerIndex(op.responses);
    assert op.responses[i].0 in op.seen;
  }

  lemma ReplicasStayGenuine(c: Config, s: State, step: Step)
    requires Enabled(c, s, step) && AllGenuine(s)
    ensures forall e :: e in Next(c, s, step).replicas ==>
            Genuine(Next(c, s, step), e.key, Next(c, s, step).replicas[e])
  {
    GenuineStays(c, s, step);
  }

  lemma HintsStayGenuine(c: Config, s: State, step: Step)
    requires Enabled(c, s, step) && WritesInv(s) && AllGenuine(s)
    ensures forall h :: h in Next(c, s, step).hints ==> Genuine(Next(c, s, step), h.key, Next(c, s, step).hints[h])
  {
    GenuineStays(c, s, step);
  }

  lemma DeliveriesStayGenuine(c: Config, s: State, step: Step)
    requires Enabled(c, s, step) && AllGenuine(s)
    ensures var t := Next(c, s, step);
            forall d :: d in t.deliveries ==> Genuine(t, t.deliveries[d].slot.key, t.deliveries[d].value)
  {
    GenuineStays(c, s, step);
  }

  lemma RepairsAreGenuine(c: Config, s: State, step: Step)
    requires Enabled(c, s, step) && step.FinishGet? && AllGenuine(s) && GetsInv(c, s)
    ensures var op := GetNext(c, s.gets[step.g], step, None);
            forall m :: m in RepairMsgs(step.g, op) ==> Genuine(s, m.key, m.value)
  {
    var op := GetNext(c, s.gets[step.g], step, None);
    GetKeepsBooks(c, s.gets[step.g], step, None);
    if op.result.value.GetOk? && op.result.value.winner.Some? {
      WinnerWasSeen(c, op);
    }
  }

  lemma WritesStayGenuine(c: Config, s: State, step: Step)
    requires Enabled(c, s, step) && AllGenuine(s) && GetsInv(c, s)
    ensures forall m :: m in Next(c, s, step).writes ==> Genuine(Next(c, s, step), m.key, m.value)
  {
    GenuineStays(c, s, step);
    if step.StartPut? {
      var t := Next(c, s, step);
      assert t.puts[step.p].key == step.key && t.puts[step.p].value == step.value;
    } else if step.FinishGet? {
      RepairsAreGenuine(c, s, step);
    }
  }

  lemma HintMsgsStayGenuine(c: Config, s: State, step: Step)
    requires Enabled(c, s, step) && AllGenuine(s)
    ensures forall h :: h in Next(c, s, step).hintMsgs ==> Genuine(Next(c, s, step), h.slot.key, h.value)
  {
    GenuineStays(c, s, step);
  }

  lemma SeenStaysGenuine(c: Config, s: State, step: Step)
    requires Enabled(c, s, step) && AllGenuine(s)
    ensures var t := Next(c, s, step);
            forall g, a :: g in t.gets && a in t.gets[g].seen && t.gets[g].seen[a].Some? ==>
                Genuine(t, t.gets[g].key, t.gets[g].seen[a].value)
  {
    GenuineStays(c, s, step);
    GetsFrame(c, s, step);
  }

  lemma AllGenuineStep(c: Config, s: State, step: Step)
    requires Enabled(c, s, step) && WritesInv(s) && GetsInv(c, s) && AllGenuine(s)
    ensures AllGenuine(Next(c, s, step))
  {
    ReplicasStayGenuine(c, s, step);
    HintsStayGenuine(c, s, step);
    DeliveriesStayGenuine(c, s, step);
    WritesStayGenuine(c, s, step);
    HintMsgsStayGenuine(c, s, step);
    SeenStaysGenuine(c, s, step);
  }

  // --- over whole runs ---

  ghost predicate Inv(c: Config, s: State) {
    WritesInv(s) && SourcesInv(s) && PutsInv(c, s) && GetsInv(c, s) && AllGenuine(s)
  }

  lemma {:induction false} RunKeepsInv(c: Config, states: seq<State>, steps: seq<Step>, i: nat)
    requires IsRun(c, states, steps) && i < |states|
    ensures Inv(c, states[i])
  {
    if i > 0 {
      RunKeepsInv(c, states, steps, i - 1);
      assert Enabled(c, states[i - 1], steps[i - 1]);
      WritesInvStep(c, states[i - 1], steps[i - 1]);
      SourcesInvStep(c, states[i - 1], steps[i - 1]);
      PutsInvStep(c, states[i - 1], steps[i - 1]);
      GetsInvStep(c, states[i - 1], steps[i - 1]);
      AllGenuineStep(c, states[i - 1], steps[i - 1]);
    }
  }
}
