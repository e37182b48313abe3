// When a parked hint is safe, and what that makes of a sloppy write.
module HintSafety {
  import opened Types
  import opened Lww
  import opened Hints
  import opened Coordinator
  import opened Handoff
  import opened Cluster
  import opened ClusterInvariants
  import opened ClusterTheorems

  // The holder still parks a hint with at least timestamp ts, or the target holds at least ts.
  ghost predicate Covered(s: State, slot: Slot, ts: nat) {
    (slot in s.hints && s.hints[slot].timestamp >= ts) || AtLeast(Entry(s, slot.target, slot.key), ts)
  }

  // A delivery for the slot has been carried out and its hint not yet deleted.
  ghost predicate DeleteDue(s: State, slot: Slot) {
    exists d :: d in s.deliveries && s.deliveries[d].active && s.deliveries[d].slot == slot
        && DeliveryRequest(d, s.deliveries[d]) in s.served
  }

  // What must not happen to a slot: a hint overwritten by an older one; a hint stored that is newer than what a
  // delivery under way has taken its snapshot of; the loss of the target's replica unless the parked hint covers all
  // that was ever parked and is not about to be deleted; the loss of the holder's hints unless the target covers it
  // all.
  ghost predicate Orderly(s: State, step: Step, slot: Slot) {
    match step
    case ServeHint(h) =>
      h.slot == slot ==>
        && (slot in s.hints ==> s.hints[slot].timestamp <= h.value.timestamp)
        && forall d :: d in s.deliveries && s.deliveries[d].active && s.deliveries[d].slot == slot
                       ==> h.value.timestamp <= s.deliveries[d].value.timestamp
    case Wipe(node, hintsToo) =>
      && (node == slot.target ==> !DeleteDue(s, slot))
      && (node == slot.target ==>
            forall h :: h in s.hintServed && h.slot == slot ==>
                slot in s.hints && s.hints[slot].timestamp >= h.value.timestamp)
      && (hintsToo && node == slot.holder ==>
            forall h :: h in s.hintServed && h.slot == slot ==>
                node != slot.target && AtLeast(Entry(s, slot.target, slot.key), h.value.timestamp))
    case _ => true
  }

  ghost predicate SlotInv(s: State, slot: Slot) {
    && (forall h :: h in s.hintServed && h.slot == slot ==> Covered(s, slot, h.value.timestamp))
    && (forall d :: d in s.deliveries && s.deliveries[d].active && s.deliveries[d].slot == slot && slot in s.hints
                    ==> s.hints[slot].timestamp <= s.deliveries[d].value.timestamp)
    && (forall d :: && d in s.deliveries && s.deliveries[d].active && s.deliveries[d].slot == slot
                    && DeliveryRequest(d, s.deliveries[d]) in s.served
                    ==> AtLeast(Entry(s, slot.target, slot.key), s.deliveries[d].value.timestamp))
  }

  // The steps that lose the cover of ts: at a moment when the target does not hold ts, the hint is overwritten by an
  // older one or deleted; or a wipe takes what was left of hint and replica.
  ghost predicate Loses(s: State, step: Step, slot: Slot, ts: nat) {
    var held := AtLeast(Entry(s, slot.target, slot.key), ts);
    match step
    case ServeHint(h) => h.slot == slot && h.value.timestamp < ts && !held
    case DeleteHint(d) => d in s.deliveries && s.deliveries[d].slot == slot && !held
    case Wipe(node, hintsToo) =>
      && (node == slot.target || !held)
      && ((hintsToo && node == slot.holder) || slot !in s.hints || s.hints[slot].timestamp < ts)
    case _ => false
  }

  lemma CoverLostIff(c: Config, s: State, step: Step, slot: Slot, ts: nat)
    requires Enabled(c, s, step) && Covered(s, slot, ts)
    ensures !Covered(Next(c, s, step), slot, ts) <==> Loses(s, step, slot, ts)
  {
    if AtLeast(Entry(s, slot.target, slot.key), ts) && !step.Wipe? {
      ReplicaMonotone(c, s, step, slot.target, slot.key, ts);
    }
  }

  ghost predicate KeptThrough(states: seq<State>, i: nat, j: nat, slot: Slot, ts: nat) {
    forall m :: i <= m <= j && m < |states| ==> Covered(states[m], slot, ts)
  }

  ghost predicate NoneLoses(states: seq<State>, steps: seq<Step>, i: nat, j: nat, slot: Slot, ts: nat) {
    forall m :: i <= m < j && m < |states| && m < |steps| ==> !Loses(states[m], steps[m], slot, ts)
  }

  lemma {:induction false} KeptIffNoneLoses(states: seq<State>, steps: seq<Step>, i: nat, j: nat, slot: Slot, ts: nat)
    requires i <= j < |states| == |steps| + 1 && Covered(states[i], slot, ts)
    requires forall m :: i <= m < j && Covered(states[m], slot, ts)
                         ==> (Covered(states[m + 1], slot, ts) <==> !Loses(states[m], steps[m], slot, ts))
    ensures KeptThrough(states, i, j, slot, ts) <==> NoneLoses(states, steps, i, j, slot, ts)
  {
    if i < j {
      KeptIffNoneLoses(states, steps, i, j - 1, slot, ts);
      if KeptThrough(states, i, j - 1, slot, ts) {
        assert Covered(states[j - 1], slot, ts);
        assert Covered(states[j], slot, ts) <==> !Loses(states[j - 1], steps[j - 1], slot, ts);
      }
    }
  }

  // Over a stretch of a run a parked version stays covered exactly if none of these steps occurs.
  lemma CoverKeptIff(c: Config, states: seq<State>, steps: seq<Step>, i: nat, j: nat, slot: Slot, ts: nat)
    requires IsRun(c, states, steps) && i <= j < |states| && Covered(states[i], slot, ts)
    ensures KeptThrough(states, i, j, slot, ts) <==> NoneLoses(states, steps, i, j, slot, ts)
  {
    forall m | i <= m < j && Covered(states[m], slot, ts)
      ensures Covered(states[m + 1], slot, ts) <==> !Loses(states[m], steps[m], slot, ts)
    {
      CoverLostIff(c, states[m], steps[m], slot, ts);
    }
    KeptIffNoneLoses(states, steps, i, j, slot, ts);
  }

  lemma DeliveredInvStep(c: Config, s: State, step: Step, slot: Slot)
    requires Enabled(c, s, step) && WritesInv(s) && SourcesInv(s) && SlotInv(s, slot) && Orderly(s, step, slot)
    ensures var t := Next(c, s, step);
            forall d :: && d in t.deliveries && t.deliveries[d].active && t.deliveries[d].slot == slot
                        && DeliveryRequest(d, t.deliveries[d]) in t.served
                        ==> AtLeast(Entry(t, slot.target, slot.key), t.deliveries[d].value.timestamp)
  {
    var t := Next(c, s, step);
    forall d | d in t.deliveries && t.deliveries[d].active && t.deliveries[d].slot == slot
        && DeliveryRequest(d, t.deliveries[d]) in t.served
      ensures AtLeast(Entry(t, slot.target, slot.key), t.deliveries[d].value.timestamp)
    {
      var m := DeliveryRequest(d, t.deliveries[d]);
      if m in s.served {
        assert m in s.writes && d in s.deliveries && s.deliveries[d] == t.deliveries[d];
        if step.Wipe? && step.node == slot.target {
          assert DeleteDue(s, slot);
        } else {
          ReplicaMonotone(c, s, step, slot.target, slot.key, t.deliveries[d].value.timestamp);
        }
      }
    }
  }

  predicate TouchesHints(step: Step) {
    step.Snapshot? || step.DeleteHint? || step.GiveUp? || step.Wipe? || step.ServeHint?
  }

  lemma HintsStay(c: Config, s: State, step: Step)
    requires Enabled(c, s, step) && !TouchesHints(step)
    ensures Next(c, s, step).deliveries == s.deliveries && Next(c, s, step).hints == s.hints
  {
  }

  lemma DeliveryInvStep(c: Config, s: State, step: Step, slot: Slot)
    requires Enabled(c, s, step) && SlotInv(s, slot) && Orderly(s, step, slot)
    ensures var t := Next(c, s, step);
            forall d :: d in t.deliveries && t.deliveries[d].active && t.deliveries[d].slot == slot && slot in t.hints
                        ==> t.hints[slot].timestamp <= t.deliveries[d].value.timestamp
  {
    if !TouchesHints(step) {
      HintsStay(c, s, step);
    }
  }

  lemma CoverStep(c: Config, s: State, step: Step, slot: Slot, h: HintMsg)
    requires Enabled(c, s, step) && SlotInv(s, slot) && Orderly(s, step, slot) && h in s.hintServed && h.slot == slot
    ensures Covered(Next(c, s, step), slot, h.value.timestamp)
  {
    CoverLostIff(c, s, step, slot, h.value.timestamp);
    if step.DeleteHint? && s.deliveries[step.d].slot == slot {
      assert DeliveryRequest(step.d, s.deliveries[step.d]) in s.served;
    }
  }

  lemma SlotInvStep(c: Config, s: State, step: Step, slot: Slot)
    requires Enabled(c, s, step) && WritesInv(s) && SourcesInv(s) && SlotInv(s, slot) && Orderly(s, step, slot)
    ensures SlotInv(Next(c, s, step), slot)
  {
    var t := Next(c, s, step);
    DeliveredInvStep(c, s, step, slot);
    DeliveryInvStep(c, s, step, slot);
    forall h | h in t.hintServed && h.slot == slot ensures Covered(t, slot, h.value.timestamp) {
      if h in s.hintServed {
        CoverStep(c, s, step, slot, h);
      }
    }
  }

  ghost predicate OrderlyUpTo(states: seq<State>, steps: seq<Step>, j: nat, slot: Slot) {
    forall i :: 0 <= i < j && i < |steps| && i < |states| ==> Orderly(states[i], steps[i], slot)
  }

  lemma {:induction false} SlotInvHolds(c: Config, states: seq<State>, steps: seq<Step>, j: nat, slot: Slot)
    requires IsRun(c, states, steps) && j < |states| && OrderlyUpTo(states, steps, j, slot)
    ensures SlotInv(states[j], slot)
  {
    if j > 0 {
      SlotInvHolds(c, states, steps, j - 1, slot);
      RunKeepsInv(c, states, steps, j - 1);
      SlotInvStep(c, states[j - 1], steps[j - 1], slot);
    }
  }

  // No hint is lost in an orderly run: wherever a hint was stored, its holder still parks it or something newer, or
  // the target holds it or something newer.
  lemma NoHintIsLost(c: Config, states: seq<State>, steps: seq<Step>, j: nat, h: HintMsg)
    requires IsRun(c, states, steps) && j < |states| && h in states[j].hintServed
    requires OrderlyUpTo(states, steps, j, h.slot)
    ensures Covered(states[j], h.slot, h.value.timestamp)
  {
    SlotInvHolds(c, states, steps, j, h.slot);
  }

  // The slots on which a put counts a hint.
  ghost predicate HintsOn(c: Config, op: PutOp, slot: Slot) {
    exists i: nat :: i < |op.hintedAt| && i < |op.failed| && op.hintedAt[i] < |Candidates(c, op.key)|
        && slot == HintSlot(c, op, i)
  }

  // Durability over runs. Wherever a put returned Ok, none of its acknowledging nodes was wiped since it carried out
  // the write, and its slots saw only orderly steps: each of at least w distinct nodes holds the write or something
  // newer, or is a hint holder whose target does or for whom such a hint is still parked.
  lemma OkPutIsDurable(c: Config, states: seq<State>, steps: seq<Step>, i: nat, p: nat)
    requires ValidConfig(c) && IsRun(c, states, steps) && i < |states|
    requires p in states[i].puts && states[i].puts[p].result == Some(PutOk)
    requires states[i].puts[p].acked == Holding(states[i], p)
    requires forall slot :: HintsOn(c, states[i].puts[p], slot) ==> OrderlyUpTo(states, steps, i, slot)
    ensures var op := states[i].puts[p];
            && |op.acked + HintHolders(c, op)| >= c.w
            && (forall a :: a in op.acked ==> AtLeast(Entry(states[i], a, op.key), op.value.timestamp))
            && (forall slot :: HintsOn(c, op, slot) ==> Covered(states[i], slot, op.value.timestamp))
            && (forall a :: a in HintHolders(c, op) <==> exists slot :: HintsOn(c, op, slot) && slot.holder == a)
  {
    PutAccounting(c, states, steps, i, p);
    var op := states[i].puts[p];
    forall a | a in op.acked ensures AtLeast(Entry(states[i], a, op.key), op.value.timestamp) {
      assert a in Holding(states[i], p);
    }
    forall slot | HintsOn(c, op, slot) ensures Covered(states[i], slot, op.value.timestamp) {
      var l: nat :| l < |op.hintedAt| && slot == HintSlot(c, op, l);
      NoHintIsLost(c, states, steps, i, HintMsg(slot, op.value, p));
    }
    HoldersAreOnSlots(c, op);
  }

  lemma HoldersAreOnSlots(c: Config, op: PutOp)
    requires PutBooks(c, op)
    ensures forall a :: a in HintHolders(c, op) <==> exists slot :: HintsOn(c, op, slot) && slot.holder == a
  {
    forall a | a in HintHolders(c, op) ensures exists slot :: HintsOn(c, op, slot) && slot.holder == a {
      var l :| 0 <= l < |op.hintedAt| && Candidates(c, op.key)[op.hintedAt[l]] == a;
      assert HintsOn(c, op, HintSlot(c, op, l));
    }
  }

  // The whole way of a sloppy write: a put that returned Ok on any mix of acknowledgements and hints is visible to
  // every later successful read as soon as its hint slots are empty, if w + r > n, its slots saw only orderly steps
  // until then and no node that it counts is wiped after it has the write.
  lemma DrainedPutIsVisible(c: Config, states: seq<State>, steps: seq<Step>, i: nat, j: nat, p: nat, g: nat)
    requires ValidConfig(c) && c.w + c.r > c.n && IsRun(c, states, steps) && i <= j < |states|
    requires p in states[i].puts && states[i].puts[p].result == Some(PutOk)
    requires forall slot :: HintsOn(c, states[i].puts[p], slot) ==>
             slot !in states[i].hints && OrderlyUpTo(states, steps, i, slot)
    requires CountedStand(states, steps, i, j, p)
    requires g !in states[i].gets && Returned(states[j], g, states[i].puts[p].key)
    ensures AtLeast(Result(states[j], g, states[i].puts[p].key), states[i].puts[p].value.timestamp)
  {
    RunKeepsInv(c, states, steps, i);
    var op := states[i].puts[p];
    assert PutBooks(c, op) && Earned(c, states[i], p, op);
    forall t | t in HintedTargets(op) ensures AtLeast(Entry(states[i], t, op.key), op.value.timestamp) {
      var l: nat :| l < |op.hintedAt| && l < |op.failed| && op.failed[l] == t;
      assert HintsOn(c, op, HintSlot(c, op, l));
      NoHintIsLost(c, states, steps, i, HintMsg(HintSlot(c, op, l), op.value, p));
    }
    SloppyBecomesStrict(c, states, steps, i, j, p, g);
  }
}
