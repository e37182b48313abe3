// What a replica holds at any moment of a run, told from the writes that were carried out there.
module ReplicaHistory {
  import opened Types
  import opened Lww
  import opened Coordinator
  import opened Handoff
  import opened Cluster
  import opened ClusterInvariants
  import opened ClusterTheorems

  // The versions of a key carried out at a node since its last wipe, in the order in which they were, each time.
  function Applied(steps: seq<Step>, i: nat, node: NodeId, key: Key): seq<Versioned>
    requires i <= |steps|
  {
    if i == 0 then [] else
      var before := Applied(steps, i - 1, node, key);
      match steps[i - 1]
      case ServeWrite(m) => if m.dst == node && m.key == key then before + [m.value] else before
      case Wipe(wiped, _) => if wiped == node then [] else before
      case _ => before
  }

  // What one step does to an entry.
  lemma EntryStep(c: Config, s: State, step: Step, node: NodeId, key: Key)
    requires Enabled(c, s, step)
    ensures Entry(Next(c, s, step), node, key)
            == match step
               case ServeWrite(m) => if m.dst == node && m.key == key then Some(Merge(Entry(s, node, key), m.value))
                   else Entry(s, node, key)
               case Wipe(wiped, _) => if wiped == node then None else Entry(s, node, key)
               case _ => Entry(s, node, key)
  {
  }

  lemma {:induction false} EntryIsMerge(c: Config, states: seq<State>, steps: seq<Step>, i: nat, node: NodeId, key: Key)
    requires IsRun(c, states, steps) && i < |states|
    ensures Entry(states[i], node, key) == MergeAll(None, Applied(steps, i, node, key))
  {
    if i > 0 {
      EntryIsMerge(c, states, steps, i - 1, node, key);
      EntryStep(c, states[i - 1], steps[i - 1], node, key);
      if steps[i - 1].ServeWrite? {
        MergeAllAppend(None, Applied(steps, i - 1, node, key), steps[i - 1].m.value);
      }
    }
  }

  // Exactly what a replica holds, ties included: the first carried out of the newest since the node's last wipe.
  lemma EntryIsFirstGreatest(c: Config, states: seq<State>, steps: seq<Step>, i: nat, node: NodeId, key: Key)
    requires IsRun(c, states, steps) && i < |states|
    ensures forall v :: Entry(states[i], node, key) == Some(v) <==> FirstGreatest(Applied(steps, i, node, key), v)
    ensures Entry(states[i], node, key).None? <==> Applied(steps, i, node, key) == []
  {
    var applied := Applied(steps, i, node, key);
    EntryIsMerge(c, states, steps, i, node, key);
    MergeAllIsFirstGreatest(None, applied);
    assert AsSeq(None) + applied == applied;
    forall v ensures MergeAll(None, applied) == Some(v) <==> FirstGreatest(applied, v) {
      LastWriteWins(None, applied, v);
    }
  }

  // No put has written a version of the key newer than v.
  ghost predicate IsNewestPut(s: State, key: Key, v: Versioned) {
    Genuine(s, key, v) && forall p :: p in s.puts && s.puts[p].key == key ==> s.puts[p].value.timestamp <= v.timestamp
  }

  // Where timestamps determine values: a replica, wiped before or not, holds the newest version ever put if and only if
  // that version was brought there since its last wipe, by a put, a hint, a repair or a push.
  lemma NewestHeldIffBrought(c: Config, states: seq<State>, steps: seq<Step>, i: nat, node: NodeId, key: Key,
                             v: Versioned)
    requires IsRun(c, states, steps) && i < |states| && TimestampsUnique(states[i]) && IsNewestPut(states[i], key, v)
    ensures Entry(states[i], node, key) == Some(v) <==> Brought(states[i], node, key, v)
  {
    RunKeepsInv(c, states, steps, i);
    EntryIsNewestWrite(c, states, steps, i, node, key);
    if Brought(states[i], node, key, v) {
      var e := Entry(states[i], node, key).value;
      EntryGenuine(states[i], node, key);
      var p :| p in states[i].puts && states[i].puts[p].key == key && states[i].puts[p].value == e;
      GenuineAgree(states[i], key, e, v);
    }
  }

  // Recovery in a run: a push carried out after the last wipe brings the sender's entry of the moment of its scan, so
  // the node holds that or something newer, and exactly that while no newer version was put.
  lemma PushRecovers(c: Config, states: seq<State>, steps: seq<Step>, i: nat, j: nat, sender: NodeId, node: NodeId,
                     key: Key, online: set<NodeId>)
    requires IsRun(c, states, steps) && i < j < |states| && steps[i] == Push(sender, node, key, online)
    requires var v := states[i].replicas[Place(sender, key)];
             WriteMsg(node, key, v, FromPush(sender)) in states[j].standing
    ensures Place(sender, key) in states[i].replicas && IsSender(c.ring, c.n, sender, node, online, key)
    ensures var v := states[i].replicas[Place(sender, key)];
            && AtLeast(Entry(states[j], node, key), v.timestamp)
            && (TimestampsUnique(states[j]) && IsNewestPut(states[j], key, v) ==>
                 Entry(states[j], node, key) == Some(v))
  {
    var v := states[i].replicas[Place(sender, key)];
    assert Enabled(c, states[i], steps[i]);
    SenderIsDesignated(c.ring, c.n, sender, node, online, key);
    RunKeepsInv(c, states, steps, j);
    assert Brought(states[j], node, key, v);
    if TimestampsUnique(states[j]) && IsNewestPut(states[j], key, v) {
      NewestHeldIffBrought(c, states, steps, j, node, key, v);
    }
  }
}
