// What has been sent, carried out, parked and read in a run, told from its steps, the ring order and the states in
// which the steps were taken: no request, hint or reading has any other source, and none of these is missing.
module Provenance {
  import opened Types
  import opened Lww
  import opened Hints
  import opened Coordinator
  import opened Handoff
  import opened Cluster
  import opened ClusterInvariants
  import opened ClusterTheorems

  // A step of the run up to state i.
  ghost predicate Took(steps: seq<Step>, i: nat, step: Step)
    requires i <= |steps|
  {
    exists l :: 0 <= l < i && steps[l] == step
  }

  lemma TookStep(steps: seq<Step>, i: nat, step: Step)
    requires 0 < i <= |steps|
    ensures Took(steps, i, step) <==> Took(steps, i - 1, step) || steps[i - 1] == step
  {
    if steps[i - 1] == step {
      assert 0 <= i - 1 < i;
    }
  }

  // The node is one of the first n of the key's ring order.
  ghost predicate IsReplica(c: Config, key: Key, node: NodeId) {
    c.ring(key).Some? && exists i :: 0 <= i < c.n && i < |c.ring(key).value| && c.ring(key).value[i] == node
  }

  lemma ReplicaIsPreferred(c: Config, key: Key, node: NodeId)
    ensures IsReplica(c, key, node) <==> node in Preferred(c, key)
  {
    if c.ring(key).Some? {
      var order, preferred := c.ring(key).value, Preferred(c, key);
      assert |preferred| == if c.n <= |order| then c.n else |order|;
      assert forall i :: 0 <= i < |preferred| ==> preferred[i] == order[i];
      if IsReplica(c, key, node) {
        var i :| 0 <= i < c.n && i < |order| && order[i] == node;
        assert preferred[i] == node;
      }
    }
  }

  // --- requests to replicas ---

  // A step sends a request: a put its write to the first n nodes of the order; a get with enough responses the last of
  // the newest to those that lack it; a delivery the parked hint; and a push what the designated sender holds.
  ghost predicate SentAt(c: Config, s: State, step: Step, m: WriteMsg) {
    match step
    case StartPut(p, key, value) => IsReplica(c, key, m.dst) && m == WriteMsg(m.dst, key, value, FromPut(p))
    case FinishGet(g) =>
      && g in s.gets && |s.gets[g].responses| >= c.r && LastGreatest(s.gets[g].responses, m.value)
      && m == WriteMsg(m.dst, s.gets[g].key, m.value, FromRepair(g))
      && Lacks(s.gets[g].responses, m.dst, m.value.timestamp)
    case Snapshot(d, slot) => slot in s.hints && m == WriteMsg(slot.target, slot.key, s.hints[slot], FromHint(d))
    case Push(sender, returning, key, online) =>
      && Place(sender, key) in s.replicas && IsSender(c.ring, c.n, sender, returning, online, key)
      && m == WriteMsg(returning, key, s.replicas[Place(sender, key)], FromPush(sender))
    case _ => false
  }

  // The node responded that it lacks the key or holds something older.
  ghost predicate Lacks(responses: seq<Response>, node: NodeId, ts: nat) {
    exists i :: && 0 <= i < |responses| && responses[i].0 == node
                && (responses[i].1.None? || responses[i].1.value.timestamp < ts)
  }

  lemma LacksIffRepaired(responses: seq<Response>, node: NodeId, ts: nat)
    ensures Lacks(responses, node, ts) <==> node in Repairs(responses, ts)
  {
    RepairsMembers(responses, ts);
    if Lacks(responses, node, ts) {
      var i :| && 0 <= i < |responses| && responses[i].0 == node
               && (responses[i].1.None? || responses[i].1.value.timestamp < ts);
      assert NeedsRepair(responses[i].1, ts);
    }
  }

  lemma RepairsSent(c: Config, s: State, step: Step, m: WriteMsg)
    requires Enabled(c, s, step) && step.FinishGet?
    ensures m in Next(c, s, step).writes <==> m in s.writes || SentAt(c, s, step, m)
  {
    var responses := s.gets[step.g].responses;
    var op := GetNext(c, s.gets[step.g], step, None);
    assert Next(c, s, step).writes == s.writes + RepairMsgs(step.g, op);
    WinnerIsLastGreatest(responses, m.value);
    LacksIffRepaired(responses, m.dst, m.value.timestamp);
  }

  lemma WritesSent(c: Config, s: State, step: Step, m: WriteMsg)
    requires Enabled(c, s, step) && (step.StartPut? || step.Snapshot? || step.Push?)
    ensures m in Next(c, s, step).writes <==> m in s.writes || SentAt(c, s, step, m)
  {
    if step.StartPut? {
      ReplicaIsPreferred(c, step.key, m.dst);
    } else if step.Push? {
      SenderIsDesignated(c.ring, c.n, step.sender, step.returning, step.online, step.key);
    }
  }

  lemma NothingSent(c: Config, s: State, step: Step)
    requires Enabled(c, s, step) && !step.StartPut? && !step.FinishGet? && !step.Snapshot? && !step.Push?
    ensures Next(c, s, step).writes == s.writes
  {
  }

  lemma WritesStep(c: Config, s: State, step: Step, m: WriteMsg)
    requires Enabled(c, s, step)
    ensures m in Next(c, s, step).writes <==> m in s.writes || SentAt(c, s, step, m)
  {
    if step.FinishGet? {
      RepairsSent(c, s, step, m);
    } else if step.StartPut? || step.Snapshot? || step.Push? {
      WritesSent(c, s, step, m);
    } else {
      NothingSent(c, s, step);
    }
  }

  // What only ever gets added is there exactly if it was added at some step.
  lemma {:induction false} Accumulates(inside: seq<bool>, added: seq<bool>, i: nat)
    requires i < |inside| == |added| + 1 && !inside[0]
    requires forall l :: 0 <= l < |added| ==> inside[l + 1] == (inside[l] || added[l])
    ensures inside[i] <==> exists l :: 0 <= l < i && added[l]
  {
    if i > 0 {
      Accumulates(inside, added, i - 1);
      assert inside[i - 1 + 1] == (inside[i - 1] || added[i - 1]);
    }
  }

  // Exactly these requests exist in a run.
  lemma WritesExact(c: Config, states: seq<State>, steps: seq<Step>, i: nat, m: WriteMsg)
    requires IsRun(c, states, steps) && i < |states|
    ensures m in states[i].writes <==> exists l :: 0 <= l < i && SentAt(c, states[l], steps[l], m)
  {
    var inside := seq(|states|, l requires 0 <= l < |states| => m in states[l].writes);
    var added := seq(|steps|, l requires 0 <= l < |steps| => SentAt(c, states[l], steps[l], m));
    forall l | 0 <= l < |steps| ensures inside[l + 1] == (inside[l] || added[l]) {
      WritesStep(c, states[l], steps[l], m);
    }
    Accumulates(inside, added, i);
    assert forall l :: 0 <= l < i ==> added[l] == SentAt(c, states[l], steps[l], m);
  }

  // Who pushes: at the moment of each push its sender was the first of the first n nodes of the key's ring order that
  // was online and not the destination, and held what it sent.
  lemma OnlySenderPushes(c: Config, states: seq<State>, steps: seq<Step>, i: nat, m: WriteMsg)
    requires IsRun(c, states, steps) && i < |states| && m in states[i].writes && m.origin.FromPush?
    ensures exists l, online ::
              && 0 <= l < i && IsSender(c.ring, c.n, m.origin.sender, m.dst, online, m.key)
              && Entry(states[l], m.origin.sender, m.key) == Some(m.value)
  {
    WritesExact(c, states, steps, i, m);
    var l :| 0 <= l < i && SentAt(c, states[l], steps[l], m);
    assert IsSender(c.ring, c.n, m.origin.sender, m.dst, steps[l].online, m.key);
  }

  // A request was carried out exactly if a step of the run did so.
  lemma {:induction false} ServedExact(c: Config, states: seq<State>, steps: seq<Step>, i: nat, m: WriteMsg)
    requires IsRun(c, states, steps) && i < |states|
    ensures m in states[i].served <==> Took(steps, i, ServeWrite(m))
  {
    if i > 0 {
      ServedExact(c, states, steps, i - 1, m);
      ServedStep(c, states[i - 1], steps[i - 1], m);
      TookStep(steps, i, ServeWrite(m));
    }
  }

  lemma ServedStep(c: Config, s: State, step: Step, m: WriteMsg)
    requires Enabled(c, s, step)
    ensures m in Next(c, s, step).served <==> m in s.served || step == ServeWrite(m)
  {
  }

  // A step of the run up to state i carried the request out, and its node was not wiped after it.
  ghost predicate StandsSince(steps: seq<Step>, i: nat, m: WriteMsg)
    requires i <= |steps|
  {
    exists l :: 0 <= l < i && steps[l] == ServeWrite(m) && Unwiped(steps, l, i, m.dst)
  }

  lemma StandsStep(steps: seq<Step>, i: nat, m: WriteMsg)
    requires 0 < i <= |steps|
    ensures StandsSince(steps, i, m) <==>
            steps[i - 1] == ServeWrite(m)
            || (StandsSince(steps, i - 1, m) && !(steps[i - 1].Wipe? && steps[i - 1].node == m.dst))
  {
    if steps[i - 1] == ServeWrite(m) {
      assert 0 <= i - 1 < i && Unwiped(steps, i - 1, i, m.dst);
    } else {
      forall l | 0 <= l < i - 1
        ensures Unwiped(steps, l, i, m.dst) <==>
                Unwiped(steps, l, i - 1, m.dst) && !(steps[i - 1].Wipe? && steps[i - 1].node == m.dst)
      {
        assert l <= i - 1 < i;
      }
    }
  }

  lemma StandingStep(c: Config, s: State, step: Step, m: WriteMsg)
    requires Enabled(c, s, step)
    ensures m in Next(c, s, step).standing <==>
            step == ServeWrite(m) || (m in s.standing && !(step.Wipe? && step.node == m.dst))
  {
  }

  // A request stands exactly if it was carried out after its node's last wipe.
  lemma {:induction false} StandingExact(c: Config, states: seq<State>, steps: seq<Step>, i: nat, m: WriteMsg)
    requires IsRun(c, states, steps) && i < |states|
    ensures m in states[i].standing <==> StandsSince(steps, i, m)
  {
    if i > 0 {
      StandingExact(c, states, steps, i - 1, m);
      StandingStep(c, states[i - 1], steps[i - 1], m);
      StandsStep(steps, i, m);
    }
  }

  // --- hints ---

  // A put asks the node after its cursor, none of the first n, to hold the hint of its first failed node without one.
  ghost predicate AskedAt(c: Config, s: State, step: Step, h: HintMsg) {
    && step.TryCandidate? && step.p in s.puts && h.put == step.p
    && var op := s.puts[step.p];
       && c.ring(op.key).Some? && c.n + op.cursor < |c.ring(op.key).value| && |op.hintedAt| < |op.failed|
       && h.slot == Slot(c.ring(op.key).value[c.n + op.cursor], op.failed[|op.hintedAt|], op.key)
       && h.value == op.value && !IsReplica(c, op.key, h.slot.holder)
  }

  lemma HintMsgsStep(c: Config, s: State, step: Step, h: HintMsg)
    requires Enabled(c, s, step)
    ensures h in Next(c, s, step).hintMsgs <==> h in s.hintMsgs || AskedAt(c, s, step, h)
  {
    if step.TryCandidate? {
      CandidateAsked(c, s, step, h);
    } else {
      NobodyAsked(c, s, step);
    }
  }

  lemma CandidateAsked(c: Config, s: State, step: Step, h: HintMsg)
    requires Enabled(c, s, step) && step.TryCandidate?
    ensures h in Next(c, s, step).hintMsgs <==> h in s.hintMsgs || AskedAt(c, s, step, h)
  {
    var op := s.puts[step.p];
    var order := c.ring(op.key).value;
    var candidate := Candidates(c, op.key)[op.cursor];
    assert candidate == order[c.n + op.cursor];
    ReplicaIsPreferred(c, op.key, candidate);
    var asked := PutNext(c, op, step);
    assert AwaitsHint(c, asked) <==> candidate !in Preferred(c, op.key);
    if AwaitsHint(c, asked) {
      assert HintRequest(c, step.p, asked)
             == HintMsg(Slot(candidate, op.failed[|op.hintedAt|], op.key), op.value, step.p);
    }
  }

  lemma NobodyAsked(c: Config, s: State, step: Step)
    requires Enabled(c, s, step) && !step.TryCandidate?
    ensures Next(c, s, step).hintMsgs == s.hintMsgs
  {
  }

  lemma HintMsgsExact(c: Config, states: seq<State>, steps: seq<Step>, i: nat, h: HintMsg)
    requires IsRun(c, states, steps) && i < |states|
    ensures h in states[i].hintMsgs <==> exists l :: 0 <= l < i && AskedAt(c, states[l], steps[l], h)
  {
    var inside := seq(|states|, l requires 0 <= l < |states| => h in states[l].hintMsgs);
    var added := seq(|steps|, l requires 0 <= l < |steps| => AskedAt(c, states[l], steps[l], h));
    forall l | 0 <= l < |steps| ensures inside[l + 1] == (inside[l] || added[l]) {
      HintMsgsStep(c, states[l], steps[l], h);
    }
    Accumulates(inside, added, i);
    assert forall l :: 0 <= l < i ==> added[l] == AskedAt(c, states[l], steps[l], h);
  }

  // A hint request was carried out exactly if a step of the run did so.
  lemma {:induction false} HintServedExact(c: Config, states: seq<State>, steps: seq<Step>, i: nat, h: HintMsg)
    requires IsRun(c, states, steps) && i < |states|
    ensures h in states[i].hintServed <==> Took(steps, i, ServeHint(h))
  {
    if i > 0 {
      HintServedExact(c, states, steps, i - 1, h);
      HintServedStep(c, states[i - 1], steps[i - 1], h);
      TookStep(steps, i, ServeHint(h));
    }
  }

  lemma HintServedStep(c: Config, s: State, step: Step, h: HintMsg)
    requires Enabled(c, s, step)
    ensures h in Next(c, s, step).hintServed <==> h in s.hintServed || step == ServeHint(h)
  {
  }

  // What one step does to a slot.
  lemma SlotStep(c: Config, s: State, step: Step, slot: Slot)
    requires Enabled(c, s, step)
    ensures var after := Next(c, s, step).hints;
            match step
            case ServeHint(h) => 47 !in h.slot.target && h in s.hintMsgs
                                 && after == s.hints[h.slot := h.value]
            case DeleteHint(d) => slot in after <==> slot in s.hints && s.deliveries[d].slot != slot
            case Wipe(node, hintsToo) => slot in after <==> slot in s.hints && !(hintsToo && slot.holder == node)
            case _ => after == s.hints
    ensures !step.ServeHint? && slot in Next(c, s, step).hints ==>
            slot in s.hints && Next(c, s, step).hints[slot] == s.hints[slot]
  {
  }

  // A parked hint was asked for by a put, stored by a step of the run, and is for a node whose id has no slash.
  lemma {:induction false} ParkedWasStored(c: Config, states: seq<State>, steps: seq<Step>, i: nat, slot: Slot)
    requires IsRun(c, states, steps) && i < |states| && slot in states[i].hints
    ensures 47 !in slot.target
    ensures exists l, p :: 0 <= l < i && steps[l] == ServeHint(HintMsg(slot, states[i].hints[slot], p))
                           && HintMsg(slot, states[i].hints[slot], p) in states[l].hintMsgs
  {
    SlotStep(c, states[i - 1], steps[i - 1], slot);
    if steps[i - 1].ServeHint? && steps[i - 1].h.slot == slot {
      var h := steps[i - 1].h;
      assert h == HintMsg(slot, states[i].hints[slot], h.put);
    } else {
      ParkedWasStored(c, states, steps, i - 1, slot);
      var l, p :| 0 <= l < i - 1 && steps[l] == ServeHint(HintMsg(slot, states[i - 1].hints[slot], p))
                  && HintMsg(slot, states[i - 1].hints[slot], p) in states[l].hintMsgs;
      assert steps[l] == ServeHint(HintMsg(slot, states[i].hints[slot], p));
    }
  }

  // A delivery deletes or gives up once.
  predicate EndsDelivery(step: Step, d: nat) {
    step == DeleteHint(d) || step == GiveUp(d)
  }

  lemma DeliveryStep(c: Config, s: State, step: Step, d: nat)
    requires Enabled(c, s, step)
    ensures EndsDelivery(step, d) ==> d in s.deliveries && s.deliveries[d].active
    ensures EndsDelivery(step, d) || (d in s.deliveries && !s.deliveries[d].active) ==>
              d in Next(c, s, step).deliveries && !Next(c, s, step).deliveries[d].active
  {
  }

  lemma {:induction false} DeliveryEndsOnce(c: Config, states: seq<State>, steps: seq<Step>, i: nat, j: nat, d: nat)
    requires IsRun(c, states, steps) && i < j <= |steps| && EndsDelivery(steps[i], d)
    ensures d in states[j].deliveries && !states[j].deliveries[d].active
    ensures j < |steps| ==> !EndsDelivery(steps[j], d)
  {
    DeliveryStep(c, states[j - 1], steps[j - 1], d);
    if i < j - 1 {
      DeliveryEndsOnce(c, states, steps, i, j - 1, d);
    }
    if j < |steps| {
      DeliveryStep(c, states[j], steps[j], d);
    }
  }

  // --- readings ---

  // What a get has read at a node is what the node held when a step of the run read it.
  lemma {:induction false} SeenWasHeld(c: Config, states: seq<State>, steps: seq<Step>, i: nat, g: nat, node: NodeId)
    requires IsRun(c, states, steps) && i < |states| && g in states[i].gets && node in states[i].gets[g].seen
    ensures exists l :: 0 <= l < i && steps[l] == ReadReplica(g, node)
                        && Entry(states[l], node, states[i].gets[g].key) == states[i].gets[g].seen[node]
    ensures IsReplica(c, states[i].gets[g].key, node)
  {
    var s, step := states[i - 1], steps[i - 1];
    GetsFrame(c, s, step);
    if g in s.gets && node in s.gets[g].seen {
      SeenWasHeld(c, states, steps, i - 1, g, node);
      SeenStep(c, s, step, g, node);
      SeenStays(c, s, step, g, node);
      var l :| 0 <= l < i - 1 && steps[l] == ReadReplica(g, node)
               && Entry(states[l], node, s.gets[g].key) == s.gets[g].seen[node];
      assert steps[l] == ReadReplica(g, node);
    } else {
      assert step == ReadReplica(g, node);
      ReplicaIsPreferred(c, s.gets[g].key, node);
    }
  }

  lemma SeenStays(c: Config, s: State, step: Step, g: nat, node: NodeId)
    requires Enabled(c, s, step) && g in s.gets && node in s.gets[g].seen
    ensures g in Next(c, s, step).gets && Next(c, s, step).gets[g].key == s.gets[g].key
    ensures node in Next(c, s, step).gets[g].seen && Next(c, s, step).gets[g].seen[node] == s.gets[g].seen[node]
  {
    GetsFrame(c, s, step);
  }

  // The node's answer has arrived.
  ghost predicate Answered(s: State, g: nat, node: NodeId) {
    g in s.gets && exists i :: 0 <= i < |s.gets[g].responses| && s.gets[g].responses[i].0 == node
  }

  lemma AnsweredStep(c: Config, s: State, step: Step, g: nat, node: NodeId)
    requires Enabled(c, s, step)
    ensures Answered(Next(c, s, step), g, node) <==> Answered(s, g, node) || step == Respond(g, node)
  {
    var t := Next(c, s, step);
    GetsFrame(c, s, step);
    if step.Respond? && step.g == g {
      var before, after := s.gets[g].responses, t.gets[g].responses;
      assert after == before + [(step.node, s.gets[g].seen[step.node])];
      assert forall i :: 0 <= i < |before| ==> after[i] == before[i];
      assert after[|before|].0 == step.node;
    }
  }

  // The answers of a get are exactly those that a step of the run says have arrived.
  lemma {:induction false} AnswersExact(c: Config, states: seq<State>, steps: seq<Step>, i: nat, g: nat, node: NodeId)
    requires IsRun(c, states, steps) && i < |states|
    ensures Answered(states[i], g, node) <==> Took(steps, i, Respond(g, node))
  {
    if i > 0 {
      AnswersExact(c, states, steps, i - 1, g, node);
      AnsweredStep(c, states[i - 1], steps[i - 1], g, node);
      TookStep(steps, i, Respond(g, node));
    }
  }

  // --- puts ---

  // The hint phase of a put begins only when all its write tasks have ended.
  ghost predicate PhasesApart(c: Config, s: State) {
    forall p, a :: p in s.puts && (s.puts[p].cursor > 0 || s.puts[p].result.Some?) && IsReplica(c, s.puts[p].key, a)
                   ==> a in s.puts[p].acked || a in s.puts[p].failed || a in s.puts[p].panicked
  }

  lemma PhasesApartStep(c: Config, s: State, step: Step)
    requires Enabled(c, s, step) && PhasesApart(c, s)
    ensures PhasesApart(c, Next(c, s, step))
  {
    var t := Next(c, s, step);
    PutsFrame(c, s, step);
    forall p, a | p in t.puts && (t.puts[p].cursor > 0 || t.puts[p].result.Some?) && IsReplica(c, t.puts[p].key, a)
      ensures a in t.puts[p].acked || a in t.puts[p].failed || a in t.puts[p].panicked
    {
      ReplicaIsPreferred(c, t.puts[p].key, a);
      if TouchedPut(step) == Some(p) && !step.StartPut? {
        assert t.puts[p] == PutNext(c, s.puts[p], step) && IsReplica(c, s.puts[p].key, a);
      }
    }
  }

  lemma {:induction false} PhasesAreApart(c: Config, states: seq<State>, steps: seq<Step>, i: nat)
    requires IsRun(c, states, steps) && i < |states|
    ensures PhasesApart(c, states[i])
  {
    if i > 0 {
      PhasesAreApart(c, states, steps, i - 1);
      PhasesApartStep(c, states[i - 1], steps[i - 1]);
    }
  }

  // How a step ends a write task.
  predicate EndsTask(step: Step, p: nat, a: NodeId) {
    step == WriteAcked(p, a) || step == WriteFailed(p, a) || step == WritePanicked(p, a)
  }

  lemma TaskStep(c: Config, s: State, step: Step, p: nat, a: NodeId)
    requires Enabled(c, s, step) && p in Next(c, s, step).puts
    ensures var op' := Next(c, s, step).puts[p];
            if p in s.puts then
              && (a in op'.acked <==> a in s.puts[p].acked || step == WriteAcked(p, a))
              && (a in op'.failed <==> a in s.puts[p].failed || step == WriteFailed(p, a))
              && (a in op'.panicked <==> a in s.puts[p].panicked || step == WritePanicked(p, a))
            else a !in op'.acked && a !in op'.failed && a !in op'.panicked && !EndsTask(step, p, a)
  {
    PutsFrame(c, s, step);
  }

  lemma TaskNeedsPut(c: Config, s: State, step: Step, p: nat, a: NodeId)
    requires Enabled(c, s, step) && p !in Next(c, s, step).puts
    ensures p !in s.puts && !EndsTask(step, p, a)
  {
    PutsFrame(c, s, step);
  }

  lemma AccumulatesStep(steps: seq<Step>, step: Step, inside: seq<bool>, i: nat)
    requires i < |inside| == |steps| + 1 && !inside[0]
    requires forall l :: 0 <= l < |steps| ==> inside[l + 1] == (inside[l] || steps[l] == step)
    ensures inside[i] <==> Took(steps, i, step)
  {
    var added := seq(|steps|, l requires 0 <= l < |steps| => steps[l] == step);
    Accumulates(inside, added, i);
    assert forall l :: 0 <= l < i ==> added[l] == (steps[l] == step);
  }

  // The books of a put list exactly what the steps of the run said of its tasks.
  lemma TasksExact(c: Config, states: seq<State>, steps: seq<Step>, i: nat, p: nat, a: NodeId)
    requires IsRun(c, states, steps) && i < |states| && p in states[i].puts
    ensures a in states[i].puts[p].acked <==> Took(steps, i, WriteAcked(p, a))
    ensures a in states[i].puts[p].failed <==> Took(steps, i, WriteFailed(p, a))
    ensures a in states[i].puts[p].panicked <==> Took(steps, i, WritePanicked(p, a))
  {
    var acked := seq(|states|, l requires 0 <= l < |states| => p in states[l].puts && a in states[l].puts[p].acked);
    var failed := seq(|states|, l requires 0 <= l < |states| => p in states[l].puts && a in states[l].puts[p].failed);
    var panicked := seq(|states|, l requires 0 <= l < |states| => p in states[l].puts
        && a in states[l].puts[p].panicked);
    forall l | 0 <= l < |steps|
      ensures acked[l + 1] == (acked[l] || steps[l] == WriteAcked(p, a))
      ensures failed[l + 1] == (failed[l] || steps[l] == WriteFailed(p, a))
      ensures panicked[l + 1] == (panicked[l] || steps[l] == WritePanicked(p, a))
    {
      TaskMoves(c, states[l], steps[l], p, a);
    }
    AccumulatesStep(steps, WriteAcked(p, a), acked, i);
    AccumulatesStep(steps, WriteFailed(p, a), failed, i);
    AccumulatesStep(steps, WritePanicked(p, a), panicked, i);
  }

  lemma TaskMoves(c: Config, s: State, step: Step, p: nat, a: NodeId)
    requires Enabled(c, s, step)
    ensures var t := Next(c, s, step);
            && ((p in t.puts && a in t.puts[p].acked) <==>
                (p in s.puts && a in s.puts[p].acked) || step == WriteAcked(p, a))
            && ((p in t.puts && a in t.puts[p].failed) <==>
                (p in s.puts && a in s.puts[p].failed) || step == WriteFailed(p, a))
            && ((p in t.puts && a in t.puts[p].panicked) <==>
                (p in s.puts && a in s.puts[p].panicked) || step == WritePanicked(p, a))
  {
    if p in Next(c, s, step).puts {
      TaskStep(c, s, step, p, a);
    } else {
      TaskNeedsPut(c, s, step, p, a);
    }
  }
}
