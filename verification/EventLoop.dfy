// The handoff task: gossip events drive hint deliveries and reconciliations.
module EventLoop {
  import opened Types

  type Uuid = Bytes

  // Seen stands for a Join or an Update. Its uuid is None when the node's metadata does not decode yet.
  datatype Event = Leave(left: NodeId) | OtherKind | Seen(node: NodeId, uuid: Option<Uuid>)

  // One turn of the loop, with the reconciliations that end before it and those that end while it runs.
  datatype Turn = Turn(event: Event, endedBefore: set<nat>, endedDuring: set<nat>)

  datatype Reconciliation = Reconciliation(node: NodeId, uuid: Uuid, aborted: bool)

  // A reconciliation is named by its position in `spawned`. `active` is the loop's own map of handles. An aborted task
  // is not thereby over: it may go on to its next await point, and is in `ended` only once a turn says that it ended.
  datatype Loop = Loop(
    known: map<NodeId, Uuid>,
    active: map<NodeId, nat>,
    spawned: seq<Reconciliation>,
    ended: set<nat>,
    deliveries: seq<NodeId>)

  const START := Loop(map[], map[], [], {}, [])

  predicate IsValid(event: Event) {
    event.Seen? && event.uuid.Some?
  }

  // Only tasks that exist can end.
  function Below(ids: set<nat>, count: nat): set<nat> {
    set i | i in ids && i < count
  }

  // The pruning of finished handles.
  function Retain(active: map<NodeId, nat>, ended: set<nat>): map<NodeId, nat> {
    map x | x in active && active[x] !in ended :: active[x]
  }

  // Phase two for a node whose UUID is new: abort what runs for it, start afresh.
  function Restart(l: Loop, node: NodeId, uuid: Uuid): Loop {
    var spawned := if node in l.active && l.active[node] < |l.spawned|
                   then l.spawned[l.active[node] := l.spawned[l.active[node]].(aborted := true)] else l.spawned;
    l.(spawned := spawned + [Reconciliation(node, uuid, false)], active := l.active[node := |l.spawned|])
  }

  function Prune(l: Loop): Loop {
    l.(active := Retain(l.active, l.ended))
  }

  function OnTurn(l: Loop, t: Turn): Loop {
    var l1 := l.(ended := l.ended + Below(t.endedBefore, |l.spawned|));
    if !IsValid(t.event) then l1 else
      var node, uuid := t.event.node, t.event.uuid.value;
      var l2 := l1.(deliveries := l1.deliveries + [node]);
      var l3 := if node in l2.known && l2.known[node] == uuid then l2 else Restart(l2, node, uuid);
      var l4 := l3.(known := l3.known[node := uuid]);
      Prune(l4.(ended := l4.ended + Below(t.endedDuring, |l4.spawned|)))
  }

  function AfterTurns(turns: seq<Turn>): Loop {
    if turns == [] then START else OnTurn(AfterTurns(turns[..|turns| - 1]), turns[|turns| - 1])
  }

  class HandoffTask {
    var known: map<NodeId, Uuid>
    var active: map<NodeId, nat>
    // The runtime's side: reconciliation tasks in the order of their spawning, which of them are over, and for which
    // nodes a delivery task was spawned.
    var spawned: seq<Reconciliation>
    var ended: set<nat>
    var deliveries: seq<NodeId>

    ghost function State(): Loop
      reads this
    {
      Loop(known, active, spawned, ended, deliveries)
    }

    ghost predicate Valid()
      reads this
    {
      forall x :: x in active ==> active[x] < |spawned|
    }

    constructor ()
      ensures Valid() && State() == START
    {
      known, active, spawned, ended, deliveries := map[], map[], [], {}, [];
    }

    method Handle(t: Turn)
      requires Valid()
      modifies this
      ensures Valid() && State() == OnTurn(old(State()), t)
    {
      ended := ended + Below(t.endedBefore, |spawned|);
      match t.event {
        case Leave(_) => return;
        case OtherKind => return;
        case Seen(node, meta) =>
          if meta.None? {
            return;
          }
          var uuid := meta.value;
          assert (active - {node})[node := |spawned|] == active[node := |spawned|];
          deliveries := deliveries + [node];
          if node !in known || known[node] != uuid {
            if node in active {
              var handle := active[node];
              active := active - {node};
              spawned := spawned[handle := spawned[handle].(aborted := true)];
            }
            active := active[node := |spawned|];
            spawned := spawned + [Reconciliation(node, uuid, false)];
          }
          known := known[node := uuid];
          ended := ended + Below(t.endedDuring, |spawned|);
          active := Retain(active, ended);
      }
    }

    // The loop up to the moment the event channel closes.
    method Run(turns: seq<Turn>)
      requires Valid() && State() == START
      modifies this
      ensures Valid() && State() == AfterTurns(turns)
      // Told from the turns: what is spawned for each node, for which nodes hints are delivered, and what runs at the
      // end.
      ensures forall node :: SpawnedFor(spawned, node) == Runs(Shown(turns, node))
      ensures deliveries == Visited(turns)
      ensures forall i: nat ::
                Running(State(), i) <==>
                  && i < |spawned| && !IsNamed(turns, i)
                  && (forall j :: i < j < |spawned| ==> spawned[j].node != spawned[i].node)
    {
      for i := 0 to |turns|
        invariant Valid() && State() == AfterTurns(turns[..i])
      {
        Handle(turns[i]);
        assert turns[..i + 1][..i] == turns[..i];
      }
      assert turns[..|turns|] == turns;
      OneDeliveryPerEvent(turns);
      forall node ensures SpawnedFor(spawned, node) == Runs(Shown(turns, node)) {
        OneSpawnPerRun(turns, node);
      }
      forall i: nat
        ensures Running(State(), i) <==>
                  && i < |spawned| && !IsNamed(turns, i)
                  && (forall j :: i < j < |spawned| ==> spawned[j].node != spawned[i].node)
      {
        RunningIffLatest(turns, i);
      }
    }
  }

  // --- what every turn keeps ---

  // Neither aborted nor over.
  predicate Running(l: Loop, i: nat) {
    i < |l.spawned| && !l.spawned[i].aborted && i !in l.ended
  }

  ghost predicate LoopInv(l: Loop) {
    // A running reconciliation is in the map, under its node: so there is at most one a node.
    && (forall i: nat :: Running(l, i) ==> l.spawned[i].node in l.active && l.active[l.spawned[i].node] == i)
    // The map's entry for a node is an unaborted reconciliation of that node, for the node's latest UUID.
    && (forall x :: x in l.active ==>
          && l.active[x] < |l.spawned| && l.spawned[l.active[x]].node == x && !l.spawned[l.active[x]].aborted
          && x in l.known && l.spawned[l.active[x]].uuid == l.known[x])
  }

  lemma {:induction false} LoopInvHolds(turns: seq<Turn>)
    ensures LoopInv(AfterTurns(turns))
  {
    if turns != [] {
      LoopInvHolds(turns[..|turns| - 1]);
      TurnKeepsInv(AfterTurns(turns[..|turns| - 1]), turns[|turns| - 1]);
    }
  }

  lemma TurnKeepsInv(l: Loop, t: Turn)
    requires LoopInv(l)
    ensures LoopInv(OnTurn(l, t))
  {
    var l1 := l.(ended := l.ended + Below(t.endedBefore, |l.spawned|));
    assert LoopInv(l1) by {
      assert forall i: nat :: Running(l1, i) ==> Running(l, i);
    }
    if IsValid(t.event) {
      var node, uuid := t.event.node, t.event.uuid.value;
      var l2 := l1.(deliveries := l1.deliveries + [node]);
      assert forall i: nat :: Running(l2, i) ==> Running(l1, i);
      var l4 := if node in l2.known && l2.known[node] == uuid then l2.(known := l2.known[node := uuid])
                else Restart(l2, node, uuid).(known := l2.known[node := uuid]);
      if node in l2.known && l2.known[node] == uuid {
        assert l4 == l2;
      } else {
        RestartKeepsInv(l2, node, uuid);
      }
      PruneKeepsInv(l4, l4.ended + Below(t.endedDuring, |l4.spawned|));
    }
  }

  lemma RestartKeepsInv(l: Loop, node: NodeId, uuid: Uuid)
    requires LoopInv(l)
    ensures LoopInv(Restart(l, node, uuid).(known := l.known[node := uuid]))
  {
    var m := Restart(l, node, uuid).(known := l.known[node := uuid]);
    forall i: nat | Running(m, i) ensures m.spawned[i].node in m.active && m.active[m.spawned[i].node] == i {
      if i < |l.spawned| {
        assert Running(l, i);
      }
    }
  }

  lemma PruneKeepsInv(l: Loop, ended: set<nat>)
    requires LoopInv(l) && l.ended <= ended
    ensures LoopInv(Prune(l.(ended := ended)))
  {
    var m := Prune(l.(ended := ended));
    forall i: nat | Running(m, i) ensures m.spawned[i].node in m.active && m.active[m.spawned[i].node] == i {
      assert Running(l, i);
    }
  }

  // --- what the loop did, told from the events alone ---

  // The valid UUIDs that a node showed, in order. Leaves and undecodable metadata do not count.
  function Shown(turns: seq<Turn>, node: NodeId): seq<Uuid> {
    if turns == [] then [] else
      var e := turns[|turns| - 1].event;
      Shown(turns[..|turns| - 1], node) + (if IsValid(e) && e.node == node then [e.uuid.value] else [])
  }

  // One entry for each maximal run of equal entries.
  function Runs(s: seq<Uuid>): seq<Uuid> {
    if |s| <= 1 then s
    else Runs(s[..|s| - 1]) + (if s[|s| - 1] == s[|s| - 2] then [] else [s[|s| - 1]])
  }

  // The UUIDs for which reconciliations of a node were spawned, in order.
  function SpawnedFor(spawned: seq<Reconciliation>, node: NodeId): seq<Uuid> {
    if spawned == [] then [] else
      var r := spawned[|spawned| - 1];
      SpawnedFor(spawned[..|spawned| - 1], node) + (if r.node == node then [r.uuid] else [])
  }

  // The node of each valid event, in order.
  function Visited(turns: seq<Turn>): seq<NodeId> {
    if turns == [] then [] else
      var e := turns[|turns| - 1].event;
      Visited(turns[..|turns| - 1]) + (if IsValid(e) then [e.node] else [])
  }

  // The remembered UUID is the latest valid one, across Leaves.
  lemma {:induction false} KnownIsLatest(turns: seq<Turn>, node: NodeId)
    ensures var l, shown := AfterTurns(turns), Shown(turns, node);
            && (node in l.known <==> shown != [])
            && (shown != [] ==> l.known[node] == shown[|shown| - 1])
  {
    if turns != [] {
      KnownIsLatest(turns[..|turns| - 1], node);
    }
  }

  // A reconciliation is spawned for each maximal run of equal UUIDs that a node shows, and at no other time.
  lemma {:induction false} OneSpawnPerRun(turns: seq<Turn>, node: NodeId)
    ensures SpawnedFor(AfterTurns(turns).spawned, node) == Runs(Shown(turns, node))
  {
    if turns != [] {
      var before, t := turns[..|turns| - 1], turns[|turns| - 1];
      OneSpawnPerRun(before, node);
      KnownIsLatest(before, node);
      var l := AfterTurns(before);
      if IsValid(t.event) {
        var x, uuid := t.event.node, t.event.uuid.value;
        var shown := Shown(before, node);
        TurnSpawns(l, t);
        SpawnedForRestart(l, x, uuid, node);
        RunsStep(shown, uuid);
        if x == node {
          assert Shown(turns, node) == shown + [uuid];
          assert x in l.known && l.known[x] == uuid <==> shown != [] && shown[|shown| - 1] == uuid;
        } else {
          assert Shown(turns, node) == shown;
          assert SpawnedFor(AfterTurns(turns).spawned, node) == SpawnedFor(l.spawned, node);
        }
      } else {
        assert Shown(turns, node) == Shown(before, node);
      }
    }
  }

  lemma RunsStep(s: seq<Uuid>, u: Uuid)
    ensures Runs(s + [u]) == Runs(s) + (if s != [] && s[|s| - 1] == u then [] else [u])
  {
    assert (s + [u])[..|s|] == s;
  }

  lemma TurnSpawns(l: Loop, t: Turn)
    requires IsValid(t.event)
    ensures var x, uuid := t.event.node, t.event.uuid.value;
            OnTurn(l, t).spawned == if x in l.known && l.known[x] == uuid then l.spawned
                else Restart(l, x, uuid).spawned
  {
  }

  // Each valid event spawns one hint delivery, for its node.
  lemma {:induction false} OneDeliveryPerEvent(turns: seq<Turn>)
    ensures AfterTurns(turns).deliveries == Visited(turns)
  {
    if turns != [] {
      OneDeliveryPerEvent(turns[..|turns| - 1]);
    }
  }

  lemma SpawnedForRestart(l: Loop, node: NodeId, uuid: Uuid, x: NodeId)
    ensures SpawnedFor(Restart(l, node, uuid).spawned, x)
            == SpawnedFor(l.spawned, x) + (if x == node then [uuid] else [])
  {
    var m := Restart(l, node, uuid);
    var init := m.spawned[..|l.spawned|];
    assert m.spawned == init + [Reconciliation(node, uuid, false)];
    SpawnedForIgnoresAborts(l.spawned, init, x);
  }

  lemma {:induction false} SpawnedForIgnoresAborts(a: seq<Reconciliation>, b: seq<Reconciliation>, x: NodeId)
    requires |a| == |b| && forall i :: 0 <= i < |a| ==> a[i].node == b[i].node && a[i].uuid == b[i].uuid
    ensures SpawnedFor(a, x) == SpawnedFor(b, x)
  {
    if a != [] {
      SpawnedForIgnoresAborts(a[..|a| - 1], b[..|b| - 1], x);
    }
  }

  // A reconciliation is aborted only in the turn that spawns its successor, for the same node and another UUID.
  lemma AbortMeansRespawn(turns: seq<Turn>, t: Turn, i: nat)
    requires var l := AfterTurns(turns); i < |l.spawned| && !l.spawned[i].aborted
    requires OnTurn(AfterTurns(turns), t).spawned[i].aborted
    ensures var l, l' := AfterTurns(turns), OnTurn(AfterTurns(turns), t);
            && |l'.spawned| == |l.spawned| + 1
            && l'.spawned[|l.spawned|].node == l.spawned[i].node && l'.spawned[|l.spawned|].uuid != l.spawned[i].uuid
            && !l'.spawned[|l.spawned|].aborted
            && (forall j :: 0 <= j < |l.spawned| && j != i ==> l'.spawned[j] == l.spawned[j])
  {
    LoopInvHolds(turns);
  }

  // An aborted reconciliation, whether or not it has come to its end yet, has a later one for the same node.
  lemma {:induction false} AbortedIsSuperseded(turns: seq<Turn>, i: nat)
    requires var l := AfterTurns(turns); i < |l.spawned| && l.spawned[i].aborted
    ensures var l := AfterTurns(turns);
            exists j :: i < j < |l.spawned| && l.spawned[j].node == l.spawned[i].node
  {
    if turns != [] {
      var before, t := turns[..|turns| - 1], turns[|turns| - 1];
      var l, l' := AfterTurns(before), AfterTurns(turns);
      TurnKeepsSpawned(l, t);
      LoopInvHolds(before);
      if i < |l.spawned| && l.spawned[i].aborted {
        AbortedIsSuperseded(before, i);
        var j :| i < j < |l.spawned| && l.spawned[j].node == l.spawned[i].node;
        assert l'.spawned[j].node == l'.spawned[i].node;
      } else if i < |l.spawned| {
        AbortMeansRespawn(before, t, i);
        assert l'.spawned[|l.spawned|].node == l'.spawned[i].node;
      }
    }
  }

  lemma TurnKeepsSpawned(l: Loop, t: Turn)
    ensures var l' := OnTurn(l, t);
            && |l.spawned| <= |l'.spawned| <= |l.spawned| + 1
            && (forall j :: 0 <= j < |l.spawned| ==> l'.spawned[j].node == l.spawned[j].node)
            && (forall j :: |l.spawned| <= j < |l'.spawned| ==> !l'.spawned[j].aborted)
  {
  }

  // And nothing else takes a running reconciliation from the running ones: after any turn it is still neither aborted
  // nor over, unless the turn says that it ended or its node showed another UUID.
  lemma OnlyAbortOrEndStops(turns: seq<Turn>, t: Turn, i: nat)
    requires Running(AfterTurns(turns), i)
    ensures var l, l' := AfterTurns(turns), OnTurn(AfterTurns(turns), t);
            Running(l', i) <==>
              && i !in t.endedBefore && (IsValid(t.event) ==> i !in t.endedDuring)
              && !(IsValid(t.event) && t.event.node == l.spawned[i].node && t.event.uuid.value != l.spawned[i].uuid)
  {
    LoopInvHolds(turns);
  }

  // After a valid event the map holds the nodes with a running reconciliation and no others.
  lemma ActiveIsRunning(turns: seq<Turn>, t: Turn, x: NodeId)
    requires IsValid(t.event)
    ensures var l := OnTurn(AfterTurns(turns), t);
            x in l.active <==> exists i: nat :: Running(l, i) && l.spawned[i].node == x
  {
    var l := OnTurn(AfterTurns(turns), t);
    LoopInvHolds(turns);
    TurnKeepsInv(AfterTurns(turns), t);
    if x in l.active {
      assert Running(l, l.active[x]) && l.spawned[l.active[x]].node == x;
    }
  }

  // --- which reconciliations run, told from the turns alone ---

  // A turn named the reconciliation as ended when it existed.
  ghost predicate IsNamed(turns: seq<Turn>, i: nat) {
    exists m :: 0 <= m < |turns| && IsNamedAt(turns, m, i)
  }

  ghost predicate IsNamedAt(turns: seq<Turn>, m: nat, i: nat)
    requires m < |turns|
  {
    || (i in turns[m].endedBefore && i < |AfterTurns(turns[..m]).spawned|)
    || (IsValid(turns[m].event) && i in turns[m].endedDuring && i < |AfterTurns(turns[..m + 1]).spawned|)
  }

  // Reconciliations end by themselves, and only so.
  lemma {:induction false} EndedIffNamed(turns: seq<Turn>, i: nat)
    ensures i in AfterTurns(turns).ended <==> IsNamed(turns, i)
  {
    if turns != [] {
      var k := |turns| - 1;
      var before := turns[..k];
      EndedIffNamed(before, i);
      assert turns[..k + 1] == turns;
      forall m | 0 <= m < k ensures IsNamedAt(turns, m, i) <==> IsNamedAt(before, m, i) {
        assert before[..m] == turns[..m] && before[..m + 1] == turns[..m + 1];
      }
      assert IsNamed(turns, i) <==> IsNamed(before, i) || IsNamedAt(turns, k, i);
    }
  }

  // The node of a valid event shows a UUID that it did not show last.
  predicate IsNews(turns: seq<Turn>, t: Turn) {
    && IsValid(t.event)
    && var shown := Shown(turns, t.event.node);
       shown == [] || shown[|shown| - 1] != t.event.uuid.value
  }

  // News spawns a reconciliation, which then runs unless it came to its end within the turn, and aborts the node's
  // running one; no other turn spawns or aborts anything.
  lemma NewsSpawns(turns: seq<Turn>, t: Turn)
    ensures var l, l' := AfterTurns(turns), OnTurn(AfterTurns(turns), t);
            if IsNews(turns, t) then
              && |l'.spawned| == |l.spawned| + 1
              && l'.spawned[|l.spawned|] == Reconciliation(t.event.node, t.event.uuid.value, false)
              && (Running(l', |l.spawned|) <==> |l.spawned| !in t.endedDuring)
              && (forall i: nat :: Running(l, i) && l.spawned[i].node == t.event.node ==> l'.spawned[i].aborted)
              && (forall i :: 0 <= i < |l.spawned| && l.spawned[i].node != t.event.node ==>
                   l'.spawned[i] == l.spawned[i])
            else l'.spawned == l.spawned
  {
    LoopInvHolds(turns);
    EndedExist(turns);
    NewsIsUnknown(turns, t);
  }

  lemma NewsIsUnknown(turns: seq<Turn>, t: Turn)
    ensures var l := AfterTurns(turns);
            IsNews(turns, t) <==>
              IsValid(t.event) && !(t.event.node in l.known && l.known[t.event.node] == t.event.uuid.value)
  {
    if IsValid(t.event) {
      KnownIsLatest(turns, t.event.node);
    }
  }

  lemma {:induction false} EndedExist(turns: seq<Turn>)
    ensures forall i :: i in AfterTurns(turns).ended ==> i < |AfterTurns(turns).spawned|
  {
    if turns != [] {
      EndedExist(turns[..|turns| - 1]);
      TurnKeepsSpawned(AfterTurns(turns[..|turns| - 1]), turns[|turns| - 1]);
    }
  }

  // What has a later reconciliation of its node no longer runs.
  lemma {:induction false} SupersededStops(turns: seq<Turn>, i: nat, j: nat)
    requires var l := AfterTurns(turns); i < j < |l.spawned| && l.spawned[i].node == l.spawned[j].node
    ensures !Running(AfterTurns(turns), i)
  {
    if turns != [] {
      var before, t := turns[..|turns| - 1], turns[|turns| - 1];
      var l := AfterTurns(before);
      TurnKeepsSpawned(l, t);
      NewsSpawns(before, t);
      if j < |l.spawned| {
        SupersededStops(before, i, j);
        StoppedStays(l, t, i);
      } else if !Running(l, i) {
        StoppedStays(l, t, i);
      }
    }
  }

  lemma StoppedStays(l: Loop, t: Turn, i: nat)
    requires i < |l.spawned| && !Running(l, i)
    ensures !Running(OnTurn(l, t), i)
  {
  }

  // Exactly which reconciliations run: the latest of each node, unless a turn has named it as ended.
  lemma RunningIffLatest(turns: seq<Turn>, i: nat)
    ensures var l := AfterTurns(turns);
            Running(l, i) <==>
              && i < |l.spawned| && !IsNamed(turns, i)
              && (forall j :: i < j < |l.spawned| ==> l.spawned[j].node != l.spawned[i].node)
  {
    var l := AfterTurns(turns);
    EndedIffNamed(turns, i);
    if Running(l, i) {
      forall j | i < j < |l.spawned| ensures l.spawned[j].node != l.spawned[i].node {
        if l.spawned[j].node == l.spawned[i].node {
          SupersededStops(turns, i, j);
        }
      }
    } else if i < |l.spawned| && l.spawned[i].aborted {
      AbortedIsSuperseded(turns, i);
    }
  }
}
