// What can always happen: the network and the nodes are as free as the program has to take them. Each lemma takes a
// state and leads from it, by the steps named, to a state with what they bring about.
module Moves {
  import opened Types
  import opened Lww
  import opened Hints
  import opened Coordinator
  import opened Handoff
  import opened Cluster
  import opened Runs
  import opened ClusterInvariants
  import opened Provenance

  // Recovery from any state: if the first of the first n nodes of a key's ring order that is online, and not x, holds
  // the key, then x can be wiped, be pushed the key, and end with that node's entry.
  lemma WipedNodeIsRefilled(c: Config, s: State, a: NodeId, x: NodeId, key: Key, online: set<NodeId>) returns (t: State)
    requires IsSender(c.ring, c.n, a, x, online, key) && Entry(s, a, key).Some?
    ensures var m := WriteMsg(x, key, Entry(s, a, key).value, FromPush(a));
            Leads(c, s, [Wipe(x, false)] + [Push(a, x, key, online)] + [ServeWrite(m)], t)
    ensures Entry(t, x, key) == Entry(t, a, key) == Entry(s, a, key)
    ensures forall k :: k != key ==> Entry(t, x, k).None?
    ensures t.hints == s.hints && t.puts == s.puts && t.gets == s.gets
  {
    var m := WriteMsg(x, key, Entry(s, a, key).value, FromPush(a));
    var s1 := NodeIsWiped(c, s, x, false);
    var s2 := KeyIsPushed(c, s1, a, x, key, online);
    t := RequestLands(c, s2, m);
    Then(c, s, [Wipe(x, false)], s1, [Push(a, x, key, online)], s2);
    Then(c, s, [Wipe(x, false)] + [Push(a, x, key, online)], s2, [ServeWrite(m)], t);
  }

  // Any node can lose its replica, with or without the hints it has parked, and nothing else.
  lemma NodeIsWiped(c: Config, s: State, x: NodeId, hintsToo: bool) returns (t: State)
    ensures Leads(c, s, [Wipe(x, hintsToo)], t)
    ensures forall a, k :: Entry(t, a, k) == if a == x then None else Entry(s, a, k)
    ensures forall slot :: slot in t.hints <==> slot in s.hints && !(hintsToo && slot.holder == x)
    ensures forall slot :: slot in t.hints ==> t.hints[slot] == s.hints[slot]
    ensures !hintsToo ==> t.hints == s.hints
    ensures t.writes == s.writes && t.puts == s.puts && t.gets == s.gets && t.deliveries == s.deliveries
  {
    t := Next(c, s, Wipe(x, hintsToo));
    One(c, s, Wipe(x, hintsToo), t);
  }

  // The designated sender of a key it holds can push it to a node that returns, whether that owns the key or not.
  lemma KeyIsPushed(c: Config, s: State, a: NodeId, x: NodeId, key: Key, online: set<NodeId>) returns (t: State)
    requires IsSender(c.ring, c.n, a, x, online, key) && Entry(s, a, key).Some?
    ensures Leads(c, s, [Push(a, x, key, online)], t)
    ensures t == s.(writes := s.writes + {WriteMsg(x, key, Entry(s, a, key).value, FromPush(a))})
  {
    SenderIsDesignated(c.ring, c.n, a, x, online, key);
    t := Next(c, s, Push(a, x, key, online));
    One(c, s, Push(a, x, key, online), t);
  }

  // A request, once sent, can be carried out at any later moment and any number of times.
  lemma RequestLands(c: Config, s: State, m: WriteMsg) returns (t: State)
    requires m in s.writes
    ensures Leads(c, s, [ServeWrite(m)], t)
    ensures forall a, k :: Entry(t, a, k)
                           == if a == m.dst && k == m.key && (Entry(s, a, k).None?
                               || Entry(s, a, k).value.timestamp < m.value.timestamp)
                              then Some(m.value) else Entry(s, a, k)
    ensures t.writes == s.writes && t.hints == s.hints && t.puts == s.puts && t.gets == s.gets && m in t.served
  {
    t := Next(c, s, ServeWrite(m));
    One(c, s, ServeWrite(m), t);
  }

  // A put of a key that the ring can place can begin at any time, and sends its write to the first n nodes.
  lemma PutStarts(c: Config, s: State, p: nat, key: Key, value: Versioned) returns (t: State)
    requires p !in s.puts && c.ring(key).Some?
    ensures Leads(c, s, [StartPut(p, key, value)], t)
    ensures t.puts == s.puts[p := PutOp(key, value, {}, [], {}, 0, false, [], None)]
    ensures forall a :: IsReplica(c, key, a) ==> WriteMsg(a, key, value, FromPut(p)) in t.writes
    ensures t.replicas == s.replicas && t.hints == s.hints && t.gets == s.gets
  {
    t := Next(c, s, StartPut(p, key, value));
    One(c, s, StartPut(p, key, value), t);
    forall a | IsReplica(c, key, a) ensures WriteMsg(a, key, value, FromPut(p)) in t.writes {
      ReplicaIsPreferred(c, key, a);
      assert Request(p, t.puts[p], a) in t.writes;
    }
  }

  // A write task that has not ended can end as failed or panicked, whether its request was carried out or not; and as
  // acknowledged once it was.
  lemma TaskEnds(c: Config, s: State, p: nat, a: NodeId) returns (failed: State, panicked: State)
    requires p in s.puts && IsReplica(c, s.puts[p].key, a)
    requires a !in s.puts[p].acked && a !in s.puts[p].failed && a !in s.puts[p].panicked
    ensures Leads(c, s, [WriteFailed(p, a)], failed)
    ensures failed == s.(puts := s.puts[p := s.puts[p].(failed := s.puts[p].failed + [a])])
    ensures Leads(c, s, [WritePanicked(p, a)], panicked)
    ensures panicked == s.(puts := s.puts[p := s.puts[p].(panicked := s.puts[p].panicked + {a})])
    ensures Request(p, s.puts[p], a) in s.served ==>
              Leads(c, s, [WriteAcked(p, a)], s.(puts := s.puts[p := s.puts[p].(acked := s.puts[p].acked + {a})]))
  {
    ReplicaIsPreferred(c, s.puts[p].key, a);
    failed := Next(c, s, WriteFailed(p, a));
    One(c, s, WriteFailed(p, a), failed);
    panicked := Next(c, s, WritePanicked(p, a));
    One(c, s, WritePanicked(p, a), panicked);
    if Request(p, s.puts[p], a) in s.served {
      One(c, s, WriteAcked(p, a), Next(c, s, WriteAcked(p, a)));
    }
  }

  // All write tasks of a put have ended, and the put has not.
  ghost predicate TasksEnded(c: Config, op: PutOp) {
    && op.result.None? && c.ring(op.key).Some?
    && forall a :: IsReplica(c, op.key, a) ==> a in op.acked || a in op.failed || a in op.panicked
  }

  lemma TasksEndedIff(c: Config, op: PutOp)
    requires TasksEnded(c, op)
    ensures InHintPhase(c, op)
  {
    forall a | a in Preferred(c, op.key) ensures !Undecided(c, op, a) {
      ReplicaIsPreferred(c, op.key, a);
    }
  }

  // Then the cursor can move on while failed nodes are without a hint and candidates are left; the node that it passes
  // is asked unless it is one of the first n.
  lemma CursorMoves(c: Config, s: State, p: nat) returns (t: State)
    requires p in s.puts && TasksEnded(c, s.puts[p]) && !s.puts[p].waiting
    requires |s.puts[p].hintedAt| < |s.puts[p].failed| && c.n + s.puts[p].cursor < |c.ring(s.puts[p].key).value|
    ensures Leads(c, s, [TryCandidate(p)], t)
    ensures var op := s.puts[p];
            t.puts == s.puts[p := op.(cursor := op.cursor + 1,
                waiting := !IsReplica(c, op.key, c.ring(op.key).value[c.n + op.cursor]))]
    ensures t.replicas == s.replicas && t.hints == s.hints && t.writes == s.writes && t.gets == s.gets
  {
    var op := s.puts[p];
    TasksEndedIff(c, op);
    ReplicaIsPreferred(c, op.key, c.ring(op.key).value[c.n + op.cursor]);
    t := Next(c, s, TryCandidate(p));
    One(c, s, TryCandidate(p), t);
  }

  // The node asked last can refuse, or seem to, at any time, and accept once the request was carried out.
  lemma HintTaskEnds(c: Config, s: State, p: nat) returns (refused: State)
    requires p in s.puts && TasksEnded(c, s.puts[p]) && s.puts[p].waiting
    requires var op := s.puts[p];
             |op.hintedAt| < |op.failed| && 0 < op.cursor && c.n + op.cursor <= |c.ring(op.key).value|
    ensures Leads(c, s, [HintFailed(p)], refused)
    ensures refused == s.(puts := s.puts[p := s.puts[p].(waiting := false)])
    ensures var op := s.puts[p];
            var holder := c.ring(op.key).value[c.n + op.cursor - 1];
            HintMsg(Slot(holder, op.failed[|op.hintedAt|], op.key), op.value, p) in s.hintServed ==>
              var op' := op.(waiting := false, hintedAt := op.hintedAt + [op.cursor - 1]);
              Leads(c, s, [HintAcked(p)], s.(puts := s.puts[p := op']))
  {
    var op := s.puts[p];
    TasksEndedIff(c, op);
    refused := Next(c, s, HintFailed(p));
    One(c, s, HintFailed(p), refused);
    if HintRequest(c, p, op) in s.hintServed {
      One(c, s, HintAcked(p), Next(c, s, HintAcked(p)));
    }
  }

  // With every failed node hinted, or no candidate left, a put can end, and ends by its counts.
  lemma PutEnds(c: Config, s: State, p: nat) returns (t: State)
    requires p in s.puts && TasksEnded(c, s.puts[p]) && !s.puts[p].waiting
    requires var op := s.puts[p];
             |op.hintedAt| == |op.failed| || c.n + op.cursor == |c.ring(op.key).value|
    requires c.n <= |c.ring(s.puts[p].key).value|
    ensures Leads(c, s, [FinishPut(p)], t)
    ensures var acks := |s.puts[p].acked| + |s.puts[p].hintedAt|;
            t == s.(puts := s.puts[p := s.puts[p].(
                result := Some(if acks < c.w then PutQuorumFailed(acks, c.w) else PutOk))])
  {
    TasksEndedIff(c, s.puts[p]);
    t := Next(c, s, FinishPut(p));
    One(c, s, FinishPut(p), t);
  }

  // A hint request, once sent, can be carried out at any later moment, if the target's id has no slash; what was parked
  // in its slot is then gone, whatever its timestamp.
  lemma HintLands(c: Config, s: State, h: HintMsg) returns (t: State)
    requires h in s.hintMsgs && 47 !in h.slot.target
    ensures Leads(c, s, [ServeHint(h)], t)
    ensures t == s.(hints := s.hints[h.slot := h.value], hintServed := s.hintServed + {h})
  {
    t := Next(c, s, ServeHint(h));
    One(c, s, ServeHint(h), t);
  }

  // A get can begin at any time; each of the first n nodes can be read once, at any time before its end ...
  lemma ReplicaIsRead(c: Config, s: State, g: nat, node: NodeId) returns (t: State)
    requires g in s.gets && s.gets[g].result.None? && IsReplica(c, s.gets[g].key, node) && node !in s.gets[g].seen
    ensures Leads(c, s, [ReadReplica(g, node)], t)
    ensures var op := s.gets[g];
            t == s.(gets := s.gets[g := op.(seen := op.seen[node := Entry(s, node, op.key)])])
  {
    ReplicaIsPreferred(c, s.gets[g].key, node);
    t := Next(c, s, ReadReplica(g, node));
    One(c, s, ReadReplica(g, node), t);
  }

  lemma GetStarts(c: Config, s: State, g: nat, key: Key) returns (t: State)
    requires g !in s.gets && c.ring(key).Some?
    ensures Leads(c, s, [StartGet(g, key)], t)
    ensures t == s.(gets := s.gets[g := GetOp(key, map[], [], None)])
  {
    t := Next(c, s, StartGet(g, key));
    One(c, s, StartGet(g, key), t);
  }

  // ... and its answer, which is what was read, can arrive once, after those that have arrived.
  lemma AnswerArrives(c: Config, s: State, g: nat, node: NodeId) returns (t: State)
    requires g in s.gets && s.gets[g].result.None? && node in s.gets[g].seen
    requires forall o :: (node, o) !in s.gets[g].responses
    ensures Leads(c, s, [Respond(g, node)], t)
    ensures var op := s.gets[g];
            t == s.(gets := s.gets[g := op.(responses := op.responses + [(node, op.seen[node])])])
  {
    var responses := s.gets[g].responses;
    forall i | 0 <= i < |responses| ensures responses[i].0 != node {
      assert responses[i] == (responses[i].0, responses[i].1);
    }
    t := Next(c, s, Respond(g, node));
    One(c, s, Respond(g, node), t);
  }

  // A get can end with whatever responses it has.
  lemma GetEnds(c: Config, s: State, g: nat) returns (t: State)
    requires g in s.gets && s.gets[g].result.None?
    ensures Leads(c, s, [FinishGet(g)], t) && g in t.gets && t.gets[g].responses == s.gets[g].responses
    ensures |s.gets[g].responses| < c.r ==> t.gets[g].result == Some(GetQuorumFailed(|s.gets[g].responses|, c.r))
    ensures |s.gets[g].responses| >= c.r ==> t.gets[g].result.Some? && t.gets[g].result.value.GetOk?
  {
    t := Next(c, s, FinishGet(g));
    One(c, s, FinishGet(g), t);
  }

  // A delivery can begin for any parked hint, others of the same hint being under way or not ...
  lemma DeliveryBegins(c: Config, s: State, d: nat, slot: Slot) returns (t: State)
    requires d !in s.deliveries && slot in s.hints
    ensures Leads(c, s, [Snapshot(d, slot)], t)
    ensures t.deliveries == s.deliveries[d := Delivery(slot, s.hints[slot], true)]
    ensures t.hints == s.hints && t.replicas == s.replicas
  {
    t := Next(c, s, Snapshot(d, slot));
    One(c, s, Snapshot(d, slot), t);
  }

  // ... delete it, or whatever is parked there by then, once its request was carried out ...
  lemma HintIsDeleted(c: Config, s: State, d: nat) returns (t: State)
    requires d in s.deliveries && s.deliveries[d].active
    requires var e := s.deliveries[d];
             WriteMsg(e.slot.target, e.slot.key, e.value, FromHint(d)) in s.served
    ensures Leads(c, s, [DeleteHint(d)], t)
    ensures t == s.(hints := s.hints - {s.deliveries[d].slot},
                    deliveries := s.deliveries[d := s.deliveries[d].(active := false)])
  {
    assert DeliveryRequest(d, s.deliveries[d]) in s.served;
    t := Next(c, s, DeleteHint(d));
    One(c, s, DeleteHint(d), t);
  }

  // ... and be given up without a trace on the hint.
  lemma DeliveryIsGivenUp(c: Config, s: State, d: nat) returns (t: State)
    requires d in s.deliveries && s.deliveries[d].active
    ensures Leads(c, s, [GiveUp(d)], t)
    ensures t == s.(deliveries := s.deliveries[d := s.deliveries[d].(active := false)])
  {
    t := Next(c, s, GiveUp(d));
    One(c, s, GiveUp(d), t);
  }
}
