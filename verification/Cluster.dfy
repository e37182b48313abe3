// The replication protocol as a transition system: any number of nodes, keys, puts and gets, interleaved in any way.
//
// A request, once sent, may be carried out at any later moment, more than once, or never: this covers lost and delayed
// requests and requests that land after their sender gave up on them. A versioned write is one atomic step of its
// node. The route that writes a replica without a timestamp is not a step.
module Cluster {
  import opened Types
  import opened Lww
  import opened Hints
  import opened Coordinator
  import opened Handoff

  datatype Config = Config(n: nat, w: nat, r: nat, ring: Ring)

  // What a replica request was sent for: a put's direct write, a get's repair, a hint delivery or a reconciliation.
  datatype Origin = FromPut(put: nat) | FromRepair(get: nat) | FromHint(delivery: nat) | FromPush(sender: NodeId)

  datatype WriteMsg = WriteMsg(dst: NodeId, key: Key, value: Versioned, origin: Origin)

  datatype Slot = Slot(holder: NodeId, target: NodeId, key: Key)

  datatype HintMsg = HintMsg(slot: Slot, value: Versioned, put: nat)

  datatype Place = Place(node: NodeId, key: Key)

  // A put under way. The i-th failed node was hinted on the candidate at index hintedAt[i]. While `waiting`, a hint
  // request for the next failed node is outstanding at candidate cursor - 1.
  datatype PutOp = PutOp(
    key: Key, value: Versioned,
    acked: set<NodeId>, failed: seq<NodeId>, panicked: set<NodeId>,
    cursor: nat, waiting: bool, hintedAt: seq<nat>,
    result: Option<PutResult>)

  // A get under way: what was read where, and the responses in the order in which they arrived.
  datatype GetOp = GetOp(key: Key, seen: map<NodeId, Option<Versioned>>, responses: seq<Response>,
                         result: Option<GetResult>)

  // One hint of a delivery's snapshot.
  datatype Delivery = Delivery(slot: Slot, value: Versioned, active: bool)

  datatype State = State(
    replicas: map<Place, Versioned>,
    hints: map<Slot, Versioned>,
    puts: map<nat, PutOp>,
    gets: map<nat, GetOp>,
    deliveries: map<nat, Delivery>,
    writes: set<WriteMsg>,      // sent
    served: set<WriteMsg>,      // carried out at least once
    standing: set<WriteMsg>,    // carried out since the node was last wiped
    hintMsgs: set<HintMsg>,     // sent
    hintServed: set<HintMsg>)   // carried out at least once

  datatype Step =
    | StartPut(p: nat, key: Key, value: Versioned)
    | WriteAcked(p: nat, node: NodeId)
    | WriteFailed(p: nat, node: NodeId)
    | WritePanicked(p: nat, node: NodeId)
    | TryCandidate(p: nat)
    | HintAcked(p: nat)
    | HintFailed(p: nat)
    | FinishPut(p: nat)
    | ServeWrite(m: WriteMsg)
    | ServeHint(h: HintMsg)
    | StartGet(g: nat, key: Key)
    | ReadReplica(g: nat, node: NodeId)
    | Respond(g: nat, node: NodeId)
    | FinishGet(g: nat)
    | Snapshot(d: nat, slot: Slot)
    | DeleteHint(d: nat)
    | GiveUp(d: nat)
    | Push(sender: NodeId, returning: NodeId, key: Key, online: set<NodeId>)
    | Wipe(node: NodeId, hintsToo: bool)

  const INIT := State(map[], map[], map[], map[], map[], {}, {}, {}, {}, {})

  ghost predicate ValidConfig(c: Config) {
    ValidRing(c.ring, c.n)
  }

  function Preferred(c: Config, key: Key): seq<NodeId> {
    PreferenceList(c.ring, c.n, key)
  }

  function Candidates(c: Config, key: Key): seq<NodeId> {
    HintCandidates(c.ring, c.n, key)
  }

  function Entry(s: State, node: NodeId, key: Key): Option<Versioned> {
    if Place(node, key) in s.replicas then Some(s.replicas[Place(node, key)]) else None
  }

  function Request(p: nat, op: PutOp, node: NodeId): WriteMsg {
    WriteMsg(node, op.key, op.value, FromPut(p))
  }

  predicate Undecided(c: Config, op: PutOp, node: NodeId) {
    node in Preferred(c, op.key) && node !in op.acked && node !in op.failed && node !in op.panicked
  }

  predicate InHintPhase(c: Config, op: PutOp) {
    op.result.None? && forall a :: a in Preferred(c, op.key) ==> !Undecided(c, op, a)
  }

  // A hint request of the put is outstanding.
  predicate AwaitsHint(c: Config, op: PutOp) {
    InHintPhase(c, op) && op.waiting && |op.hintedAt| < |op.failed| && 0 < op.cursor <= |Candidates(c, op.key)|
  }

  // What a put does next, as far as its coordinator alone is concerned.
  predicate PutEnabled(c: Config, op: PutOp, step: Step) {
    match step
    case WriteAcked(_, node) => Undecided(c, op, node)
    case WriteFailed(_, node) => Undecided(c, op, node)
    case WritePanicked(_, node) => Undecided(c, op, node)
    case TryCandidate(_) =>
      InHintPhase(c, op) && !op.waiting && |op.hintedAt| < |op.failed| && op.cursor < |Candidates(c, op.key)|
    case HintAcked(_) => AwaitsHint(c, op)
    case HintFailed(_) => AwaitsHint(c, op)
    case FinishPut(_) =>
      InHintPhase(c, op) && !op.waiting && (|op.hintedAt| == |op.failed| || op.cursor == |Candidates(c, op.key)|)
    case _ => false
  }

  function PutNext(c: Config, op: PutOp, step: Step): PutOp
    requires PutEnabled(c, op, step)
  {
    match step
    case WriteAcked(_, node) => op.(acked := op.acked + {node})
    case WriteFailed(_, node) => op.(failed := op.failed + [node])
    case WritePanicked(_, node) => op.(panicked := op.panicked + {node})
    case TryCandidate(_) => op.(cursor := op.cursor + 1,
        waiting := Candidates(c, op.key)[op.cursor] !in Preferred(c, op.key))
    case HintAcked(_) => op.(waiting := false, hintedAt := op.hintedAt + [op.cursor - 1])
    case HintFailed(_) => op.(waiting := false)
    case FinishPut(_) =>
      var acks := |op.acked| + |op.hintedAt|;
      op.(result := Some(if acks >= c.w then PutOk else PutQuorumFailed(acks, c.w)))
  }

  // The request outstanding while a put waits.
  function HintRequest(c: Config, p: nat, op: PutOp): HintMsg
    requires AwaitsHint(c, op)
  {
    HintMsg(Slot(Candidates(c, op.key)[op.cursor - 1], op.failed[|op.hintedAt|], op.key), op.value, p)
  }

  predicate GetEnabled(c: Config, op: GetOp, step: Step) {
    match step
    case ReadReplica(_, node) => op.result.None? && node in Preferred(c, op.key) && node !in op.seen
    case Respond(_, node) => op.result.None? && node in op.seen && forall i :: 0 <= i < |op.responses| ==>
        op.responses[i].0 != node
    case FinishGet(_) => op.result.None?
    case _ => false
  }

  function GetNext(c: Config, op: GetOp, step: Step, found: Option<Versioned>): GetOp
    requires GetEnabled(c, op, step)
  {
    match step
    case ReadReplica(_, node) => op.(seen := op.seen[node := found])
    case Respond(_, node) => op.(responses := op.responses + [(node, op.seen[node])])
    case FinishGet(_) =>
      op.(result := Some(if |op.responses| < c.r then GetQuorumFailed(|op.responses|, c.r)
          else GetOk(Winner(op.responses))))
  }

  // The read repairs that a finished get sends.
  function RepairMsgs(g: nat, op: GetOp): set<WriteMsg> {
    match op.result
    case Some(GetOk(Some(winner))) =>
      set a | a in Repairs(op.responses, winner.timestamp) :: WriteMsg(a, op.key, winner, FromRepair(g))
    case _ => {}
  }

  function DeliveryRequest(d: nat, delivery: Delivery): WriteMsg {
    WriteMsg(delivery.slot.target, delivery.slot.key, delivery.value, FromHint(d))
  }

  predicate Enabled(c: Config, s: State, step: Step) {
    match step
    case StartPut(p, key, _) => p !in s.puts && c.ring(key).Some?
    case WriteAcked(p, node) => p in s.puts && PutEnabled(c, s.puts[p], step) && Request(p, s.puts[p], node) in s.served
    case WriteFailed(p, _) => p in s.puts && PutEnabled(c, s.puts[p], step)
    case WritePanicked(p, _) => p in s.puts && PutEnabled(c, s.puts[p], step)
    case TryCandidate(p) => p in s.puts && PutEnabled(c, s.puts[p], step)
    case HintAcked(p) => p in s.puts && PutEnabled(c, s.puts[p], step) && HintRequest(c, p, s.puts[p]) in s.hintServed
    case HintFailed(p) => p in s.puts && PutEnabled(c, s.puts[p], step)
    case FinishPut(p) => p in s.puts && PutEnabled(c, s.puts[p], step)
    case ServeWrite(m) => m in s.writes
    case ServeHint(h) => h in s.hintMsgs && ValidTarget(h.slot.target)
    case StartGet(g, key) => g !in s.gets && c.ring(key).Some?
    case ReadReplica(g, _) => g in s.gets && GetEnabled(c, s.gets[g], step)
    case Respond(g, _) => g in s.gets && GetEnabled(c, s.gets[g], step)
    case FinishGet(g) => g in s.gets && GetEnabled(c, s.gets[g], step)
    case Snapshot(d, slot) => d !in s.deliveries && slot in s.hints
    case DeleteHint(d) => d in s.deliveries && s.deliveries[d].active && DeliveryRequest(d, s.deliveries[d]) in s.served
    case GiveUp(d) => d in s.deliveries && s.deliveries[d].active
    case Push(sender, returning, key, online) =>
      Place(sender, key) in s.replicas && Designated(Preferred(c, key), returning, online) == Some(sender)
    case Wipe(_, _) => true
  }

  function Next(c: Config, s: State, step: Step): State
    requires Enabled(c, s, step)
  {
    match step
    case StartPut(p, key, value) =>
      var op := PutOp(key, value, {}, [], {}, 0, false, [], None);
      s.(puts := s.puts[p := op], writes := s.writes + set a | a in Preferred(c, key) :: Request(p, op, a))
    case WriteAcked(p, _) => s.(puts := s.puts[p := PutNext(c, s.puts[p], step)])
    case WriteFailed(p, _) => s.(puts := s.puts[p := PutNext(c, s.puts[p], step)])
    case WritePanicked(p, _) => s.(puts := s.puts[p := PutNext(c, s.puts[p], step)])
    case TryCandidate(p) =>
      var op := PutNext(c, s.puts[p], step);
      s.(puts := s.puts[p := op], hintMsgs := s.hintMsgs + if AwaitsHint(c, op) then {HintRequest(c, p, op)} else {})
    case HintAcked(p) => s.(puts := s.puts[p := PutNext(c, s.puts[p], step)])
    case HintFailed(p) => s.(puts := s.puts[p := PutNext(c, s.puts[p], step)])
    case FinishPut(p) => s.(puts := s.puts[p := PutNext(c, s.puts[p], step)])
    case ServeWrite(m) =>
      s.(replicas := s.replicas[Place(m.dst, m.key) := Merge(Entry(s, m.dst, m.key), m.value)],
         served := s.served + {m}, standing := s.standing + {m})
    case ServeHint(h) => s.(hints := s.hints[h.slot := h.value], hintServed := s.hintServed + {h})
    case StartGet(g, key) => s.(gets := s.gets[g := GetOp(key, map[], [], None)])
    case ReadReplica(g, node) => s.(gets := s.gets[g := GetNext(c, s.gets[g], step, Entry(s, node, s.gets[g].key))])
    case Respond(g, _) => s.(gets := s.gets[g := GetNext(c, s.gets[g], step, None)])
    case FinishGet(g) =>
      var op := GetNext(c, s.gets[g], step, None);
      s.(gets := s.gets[g := op], writes := s.writes + RepairMsgs(g, op))
    case Snapshot(d, slot) =>
      var delivery := Delivery(slot, s.hints[slot], true);
      s.(deliveries := s.deliveries[d := delivery], writes := s.writes + {DeliveryRequest(d, delivery)})
    case DeleteHint(d) =>
      s.(hints := s.hints - {s.deliveries[d].slot}, deliveries := s.deliveries[d := s.deliveries[d].(active := false)])
    case GiveUp(d) => s.(deliveries := s.deliveries[d := s.deliveries[d].(active := false)])
    case Push(sender, returning, key, online) =>
      s.(writes := s.writes + {WriteMsg(returning, key, s.replicas[Place(sender, key)], FromPush(sender))})
    case Wipe(node, hintsToo) =>
      s.(replicas := (map e | e in s.replicas && e.node != node :: s.replicas[e]),
         standing := (set m | m in s.standing && m.dst != node),
         hints := map h | h in s.hints && !(hintsToo && h.holder == node) :: s.hints[h])
  }

  // Any sequence of enabled steps, with the states between them.
  ghost predicate Path(c: Config, states: seq<State>, steps: seq<Step>) {
    && |states| == |steps| + 1
    && forall i :: 0 <= i < |steps| ==> Enabled(c, states[i], steps[i]) && states[i + 1] == Next(c, states[i], steps[i])
  }

  // A run starts from the empty cluster.
  ghost predicate IsRun(c: Config, states: seq<State>, steps: seq<Step>) {
    Path(c, states, steps) && states[0] == INIT
  }

  // No step from state i to state j wipes the node.
  ghost predicate Unwiped(steps: seq<Step>, i: nat, j: nat, node: NodeId) {
    forall m :: i <= m < j && m < |steps| && steps[m].Wipe? ==> steps[m].node != node
  }
}
