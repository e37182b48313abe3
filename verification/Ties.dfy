// Two versions of a key with the same timestamp: runs in which every request is carried out and yet the replicas differ
// after a full read with all its repairs.
module Ties {
  import opened Types
  import opened Lww
  import opened Coordinator
  import opened Cluster
  import opened Runs
  import opened ClusterTheorems

  // Two puts of one key with one timestamp, where two nodes are preferred for the key.
  datatype Tie = Tie(c: Config, key: Key, a: NodeId, b: NodeId, u: Versioned, v: Versioned) {
    ghost predicate Valid() {
      && ValidConfig(c) && c.n == 2 && c.w <= 2 && c.r <= 2 && c.ring(key).Some?
      && a != b && (forall x :: x in Preferred(c, key) <==> x == a || x == b)
      && u.timestamp == v.timestamp
    }

    function Value(p: nat): Versioned {
      if p == 0 then u else v
    }

    function Write(p: nat, node: NodeId): WriteMsg {
      WriteMsg(node, key, Value(p), FromPut(p))
    }

    function Put(p: nat, acked: set<NodeId>): PutOp {
      PutOp(key, Value(p), acked, [], {}, 0, false, [], None)
    }

    // All that matters of a state while the puts go on: who acknowledged which of them.
    ghost predicate Putting(s: State, acked0: set<NodeId>, acked1: set<NodeId>) {
      && s.gets == map[] && s.hints == map[] && s.puts == map[0 := Put(0, acked0), 1 := Put(1, acked1)]
      && forall p, node :: p < 2 && (node == a || node == b) ==> Write(p, node) in s.writes
    }

    function AckSteps(p: nat, node: NodeId): seq<Step> {
      [ServeWrite(Write(p, node))] + [WriteAcked(p, node)]
    }

    // Each write reaches one node first and the other second.
    function Crossing(): seq<Step> {
      (AckSteps(0, a) + AckSteps(1, b)) + (AckSteps(0, b) + AckSteps(1, a))
    }

    function Puts(): seq<Step> {
      ([StartPut(0, key, u)] + [StartPut(1, key, v)]) + Crossing() + ([FinishPut(0)] + [FinishPut(1)])
    }

    // The get reads both nodes.
    function Ask(node: NodeId): seq<Step> {
      [ReadReplica(0, node)] + [Respond(0, node)]
    }

    function FullRead(): seq<Step> {
      [StartGet(0, key)] + (Ask(a) + Ask(b)) + [FinishGet(0)]
    }

    function Responses(): seq<Response> {
      [(a, Some(u)), (b, Some(v))]
    }
  }

  lemma FirstStarts(x: Tie) returns (t: State)
    requires x.Valid()
    ensures Leads(x.c, INIT, [StartPut(0, x.key, x.u)], t)
    ensures t == State(map[], map[], map[0 := x.Put(0, {})], map[], map[], t.writes, {}, {}, {}, {})
    ensures x.Write(0, x.a) in t.writes && x.Write(0, x.b) in t.writes
  {
    t := Next(x.c, INIT, StartPut(0, x.key, x.u));
    One(x.c, INIT, StartPut(0, x.key, x.u), t);
    assert Request(0, x.Put(0, {}), x.a) in t.writes && Request(0, x.Put(0, {}), x.b) in t.writes;
  }

  lemma BothStart(x: Tie) returns (t: State)
    requires x.Valid()
    ensures Leads(x.c, INIT, [StartPut(0, x.key, x.u)] + [StartPut(1, x.key, x.v)], t)
    ensures x.Putting(t, {}, {}) && t.replicas == map[]
  {
    var s := FirstStarts(x);
    t := Next(x.c, s, StartPut(1, x.key, x.v));
    One(x.c, s, StartPut(1, x.key, x.v), t);
    assert Request(1, x.Put(1, {}), x.a) in t.writes && Request(1, x.Put(1, {}), x.b) in t.writes;
    Then(x.c, INIT, [StartPut(0, x.key, x.u)], s, [StartPut(1, x.key, x.v)], t);
  }

  function With(acked: set<NodeId>, p: nat, q: nat, node: NodeId): set<NodeId> {
    if p == q then acked + {node} else acked
  }

  lemma WriteServed(x: Tie, s: State, acked0: set<NodeId>, acked1: set<NodeId>, p: nat, node: NodeId) returns (t: State)
    requires x.Valid() && x.Putting(s, acked0, acked1) && (node == x.a || node == x.b) && p < 2
    ensures Leads(x.c, s, [ServeWrite(x.Write(p, node))], t) && x.Putting(t, acked0, acked1)
            && x.Write(p, node) in t.served
    ensures t.replicas == s.replicas[Place(node, x.key) := Merge(Entry(s, node, x.key), x.Value(p))]
  {
    t := Next(x.c, s, ServeWrite(x.Write(p, node)));
    One(x.c, s, ServeWrite(x.Write(p, node)), t);
  }

  lemma AckCounted(x: Tie, s: State, acked0: set<NodeId>, acked1: set<NodeId>, p: nat, node: NodeId) returns (t: State)
    requires x.Valid() && x.Putting(s, acked0, acked1) && (node == x.a || node == x.b) && p < 2
    requires x.Write(p, node) in s.served && node !in if p == 0 then acked0 else acked1
    ensures Leads(x.c, s, [WriteAcked(p, node)], t) && x.Putting(t, With(acked0, 0, p, node), With(acked1, 1, p, node))
    ensures t.replicas == s.replicas
  {
    assert Request(p, s.puts[p], node) == x.Write(p, node);
    t := Next(x.c, s, WriteAcked(p, node));
    One(x.c, s, WriteAcked(p, node), t);
  }

  lemma ServedAndAcked(x: Tie, s: State, acked0: set<NodeId>, acked1: set<NodeId>, p: nat, node: NodeId)
    returns (t: State)
    requires x.Valid() && x.Putting(s, acked0, acked1) && (node == x.a || node == x.b) && p < 2
    requires node !in if p == 0 then acked0 else acked1
    ensures Leads(x.c, s, x.AckSteps(p, node), t) && x.Putting(t, With(acked0, 0, p, node), With(acked1, 1, p, node))
    ensures t.replicas == s.replicas[Place(node, x.key) := Merge(Entry(s, node, x.key), x.Value(p))]
  {
    var mid := WriteServed(x, s, acked0, acked1, p, node);
    t := AckCounted(x, mid, acked0, acked1, p, node);
    Then(x.c, s, [ServeWrite(x.Write(p, node))], mid, [WriteAcked(p, node)], t);
  }

  // The first put is served at one node, then the second at the other.
  lemma HalfCross(x: Tie, s: State, acked0: set<NodeId>, acked1: set<NodeId>, d: NodeId, e: NodeId) returns (t: State)
    requires x.Valid() && x.Putting(s, acked0, acked1) && (d == x.a || d == x.b) && (e == x.a || e == x.b) && d != e
    requires d !in acked0 && e !in acked1
    ensures Leads(x.c, s, x.AckSteps(0, d) + x.AckSteps(1, e), t) && x.Putting(t, acked0 + {d}, acked1 + {e})
    ensures t.replicas
            == s.replicas[Place(d, x.key) := Merge(Entry(s, d, x.key), x.u)][Place(e,
            x.key) := Merge(Entry(s, e, x.key), x.v)]
  {
    var mid := ServedAndAcked(x, s, acked0, acked1, 0, d);
    t := ServedAndAcked(x, mid, acked0 + {d}, acked1, 1, e);
    Then(x.c, s, x.AckSteps(0, d), mid, x.AckSteps(1, e), t);
  }

  lemma WritesCross(x: Tie, s: State) returns (t: State)
    requires x.Valid() && x.Putting(s, {}, {}) && s.replicas == map[]
    ensures Leads(x.c, s, x.Crossing(), t)
    ensures x.Putting(t, {x.a, x.b}, {x.a, x.b})
            && t.replicas == map[Place(x.a, x.key) := x.u, Place(x.b, x.key) := x.v]
  {
    var mid := HalfCross(x, s, {}, {}, x.a, x.b);
    assert {} + {x.a} == {x.a} && {} + {x.b} == {x.b};
    t := HalfCross(x, mid, {x.a}, {x.b}, x.b, x.a);
    assert {x.a} + {x.b} == {x.a, x.b} == {x.b} + {x.a};
    Then(x.c, s, x.AckSteps(0, x.a) + x.AckSteps(1, x.b), mid, x.AckSteps(0, x.b) + x.AckSteps(1, x.a), t);
  }

  // Both puts have returned Ok, each acknowledged by both nodes.
  ghost predicate BothOk(x: Tie, s: State) {
    && s.gets == map[] && s.hints == map[] && s.replicas == map[Place(x.a, x.key) := x.u, Place(x.b, x.key) := x.v]
    && s.puts == map[0 := x.Put(0, {x.a, x.b}).(result := Some(PutOk)),
         1 := x.Put(1, {x.a, x.b}).(result := Some(PutOk))]
  }

  lemma PutFinishes(x: Tie, s: State, p: nat) returns (t: State)
    requires x.Valid() && p in s.puts && p < 2 && s.puts[p] == x.Put(p, {x.a, x.b})
    ensures Leads(x.c, s, [FinishPut(p)], t)
    ensures t == s.(puts := s.puts[p := x.Put(p, {x.a, x.b}).(result := Some(PutOk))])
  {
    assert |{x.a, x.b}| == 2;
    t := Next(x.c, s, FinishPut(p));
    One(x.c, s, FinishPut(p), t);
  }

  lemma PutsFinish(x: Tie, s: State) returns (t: State)
    requires x.Valid() && x.Putting(s, {x.a, x.b}, {x.a, x.b})
             && s.replicas == map[Place(x.a, x.key) := x.u, Place(x.b, x.key) := x.v]
    ensures Leads(x.c, s, [FinishPut(0)] + [FinishPut(1)], t) && BothOk(x, t)
  {
    var mid := PutFinishes(x, s, 0);
    t := PutFinishes(x, mid, 1);
    Then(x.c, s, [FinishPut(0)], mid, [FinishPut(1)], t);
  }

  lemma PutsTie(x: Tie) returns (t: State)
    requires x.Valid()
    ensures Leads(x.c, INIT, x.Puts(), t) && BothOk(x, t)
  {
    var s1 := BothStart(x);
    var s2 := WritesCross(x, s1);
    t := PutsFinish(x, s2);
    Then(x.c, INIT, [StartPut(0, x.key, x.u)] + [StartPut(1, x.key, x.v)], s1, x.Crossing(), s2);
    Then(x.c, INIT, [StartPut(0, x.key, x.u)] + [StartPut(1, x.key, x.v)] + x.Crossing(), s2,
        [FinishPut(0)] + [FinishPut(1)], t);
  }

  // A get that has read the nodes `seen` and got these responses.
  ghost predicate Reading(x: Tie, s: State, seen: map<NodeId, Option<Versioned>>, answered: seq<Response>) {
    0 in s.gets && s.gets[0] == GetOp(x.key, seen, answered, None)
  }

  lemma NodeReads(x: Tie, s: State, seen: map<NodeId, Option<Versioned>>, answered: seq<Response>, node: NodeId)
    returns (t: State)
    requires x.Valid() && Reading(x, s, seen, answered) && (node == x.a || node == x.b) && node !in seen
    ensures Leads(x.c, s, [ReadReplica(0, node)], t) && t == s.(gets := t.gets)
    ensures Reading(x, t, seen[node := Entry(s, node, x.key)], answered)
  {
    t := Next(x.c, s, ReadReplica(0, node));
    One(x.c, s, ReadReplica(0, node), t);
  }

  lemma NodeResponds(x: Tie, s: State, seen: map<NodeId, Option<Versioned>>, answered: seq<Response>, node: NodeId)
    returns (t: State)
    requires x.Valid() && Reading(x, s, seen, answered) && node in seen && forall i :: 0 <= i < |answered| ==>
             answered[i].0 != node
    ensures Leads(x.c, s, [Respond(0, node)], t) && t == s.(gets := t.gets)
    ensures Reading(x, t, seen, answered + [(node, seen[node])])
  {
    t := Next(x.c, s, Respond(0, node));
    One(x.c, s, Respond(0, node), t);
  }

  lemma NodeAsked(x: Tie, s: State, seen: map<NodeId, Option<Versioned>>, answered: seq<Response>, node: NodeId)
    returns (t: State)
    requires x.Valid() && Reading(x, s, seen, answered) && (node == x.a || node == x.b) && node !in seen
    requires forall i :: 0 <= i < |answered| ==> answered[i].0 != node
    ensures Leads(x.c, s, x.Ask(node), t) && t == s.(gets := t.gets)
    ensures Reading(x, t, seen[node := Entry(s, node, x.key)], answered + [(node, Entry(s, node, x.key))])
  {
    var mid := NodeReads(x, s, seen, answered, node);
    t := NodeResponds(x, mid, seen[node := Entry(s, node, x.key)], answered, node);
    Then(x.c, s, [ReadReplica(0, node)], mid, [Respond(0, node)], t);
  }

  lemma BothAnswer(x: Tie, s: State) returns (seen: map<NodeId, Option<Versioned>>, t: State)
    requires x.Valid() && Reading(x, s, map[], [])
    requires Entry(s, x.a, x.key) == Some(x.u) && Entry(s, x.b, x.key) == Some(x.v)
    ensures Leads(x.c, s, x.Ask(x.a) + x.Ask(x.b), t) && t == s.(gets := t.gets) && Reading(x, t, seen, x.Responses())
  {
    var mid := NodeAsked(x, s, map[], [], x.a);
    t := NodeAsked(x, mid, map[x.a := Some(x.u)], [] + [(x.a, Some(x.u))], x.b);
    seen := map[x.a := Some(x.u)][x.b := Some(x.v)];
    assert [] + [(x.a, Some(x.u))] + [(x.b, Some(x.v))] == x.Responses();
    Then(x.c, s, x.Ask(x.a), mid, x.Ask(x.b), t);
  }

  // The read returns one of the two and sees nothing to repair.
  lemma TieNeedsNoRepair(x: Tie)
    requires x.Valid()
    ensures Winner(x.Responses()) == Some(x.v) && Repairs(x.Responses(), x.v.timestamp) == []
  {
    var first: seq<Response> := [(x.a, Some(x.u))];
    assert first[..0] == [] && Winner(first) == Some(x.u) && Repairs(first, x.v.timestamp) == [];
    assert x.Responses()[..1] == first;
  }

  lemma GetFinishes(x: Tie, s: State, seen: map<NodeId, Option<Versioned>>) returns (t: State)
    requires x.Valid() && Reading(x, s, seen, x.Responses())
    ensures Leads(x.c, s, [FinishGet(0)], t)
    ensures t.puts == s.puts && t.hints == s.hints && t.replicas == s.replicas
    ensures 0 in t.gets && t.gets[0] == GetOp(x.key, seen, x.Responses(), Some(GetOk(Some(x.v))))
            && RepairMsgs(0, t.gets[0]) == {}
  {
    TieNeedsNoRepair(x);
    t := Next(x.c, s, FinishGet(0));
    One(x.c, s, FinishGet(0), t);
  }

  lemma ReadsTie(x: Tie, s: State) returns (t: State)
    requires x.Valid() && BothOk(x, s)
    ensures Leads(x.c, s, x.FullRead(), t)
    ensures t.puts == s.puts && t.hints == s.hints && t.replicas == s.replicas
    ensures 0 in t.gets && t.gets[0].key == x.key && t.gets[0].responses == x.Responses()
    ensures t.gets[0].result == Some(GetOk(Some(x.v))) && RepairMsgs(0, t.gets[0]) == {}
  {
    var s1 := s.(gets := s.gets[0 := GetOp(x.key, map[], [], None)]);
    One(x.c, s, StartGet(0, x.key), s1);
    var seen, s2 := BothAnswer(x, s1);
    t := GetFinishes(x, s2, seen);
    Then(x.c, s, [StartGet(0, x.key)], s1, x.Ask(x.a) + x.Ask(x.b), s2);
    Then(x.c, s, [StartGet(0, x.key)] + (x.Ask(x.a) + x.Ask(x.b)), s2, [FinishGet(0)], t);
  }

  // Every premise of FullReadConverges but that timestamps determine values, all puts acknowledged by all preferred
  // nodes, no newer write, and still two replicas differ.
  ghost predicate StaysDivided(c: Config, states: seq<State>, steps: seq<Step>, g: nat, key: Key) {
    && ValidConfig(c) && IsRun(c, states, steps) && (forall m :: 0 <= m < |steps| ==> !steps[m].Wipe?)
    && Divided(c, states[|steps|], g, key)
  }

  ghost predicate Divided(c: Config, t: State, g: nat, key: Key) {
    && (forall p :: p in t.puts ==>
          t.puts[p].result == Some(PutOk) && t.puts[p].acked == Elements(Preferred(c, t.puts[p].key)))
    && Returned(t, g, key) && Result(t, g, key).Some? && |t.gets[g].responses| == c.n && RepairsDelivered(t, g)
    && (forall x :: x in Preferred(c, key) ==> !AtLeast(Entry(t, x, key), Result(t, g, key).value.timestamp + 1))
    && exists x, y :: x in Preferred(c, key) && y in Preferred(c, key) && Entry(t, x, key) != Entry(t, y, key)
  }

  lemma EndIsDivided(x: Tie, s: State, t: State)
    requires x.Valid() && x.u != x.v && BothOk(x, s) && t.puts == s.puts && t.replicas == s.replicas
    requires 0 in t.gets && t.gets[0].key == x.key && t.gets[0].responses == x.Responses()
    requires t.gets[0].result == Some(GetOk(Some(x.v))) && RepairMsgs(0, t.gets[0]) == {}
    ensures Divided(x.c, t, 0, x.key)
  {
    assert Elements(Preferred(x.c, x.key)) == {x.a, x.b};
    assert Entry(t, x.a, x.key) == Some(x.u) && Entry(t, x.b, x.key) == Some(x.v);
  }

  lemma NoWipeIn(x: Tie)
    ensures forall m :: 0 <= m < |x.Puts() + x.FullRead()| ==> !(x.Puts() + x.FullRead())[m].Wipe?
  {
  }

  // Without "timestamps determine values": for every configuration with two preferred nodes and any two versions with
  // one timestamp, the replicas stay different.
  lemma TiesStay(x: Tie)
    requires x.Valid() && x.u != x.v
    ensures exists states :: StaysDivided(x.c, states, x.Puts() + x.FullRead(), 0, x.key)
  {
    var mid := PutsTie(x);
    var t := ReadsTie(x, mid);
    Then(x.c, INIT, x.Puts(), mid, x.FullRead(), t);
    var states :| Path(x.c, states, x.Puts() + x.FullRead()) && states[0] == INIT
        && states[|x.Puts() + x.FullRead()|] == t;
    EndIsDivided(x, mid, t);
    NoWipeIn(x);
    assert StaysDivided(x.c, states, x.Puts() + x.FullRead(), 0, x.key);
  }
}
