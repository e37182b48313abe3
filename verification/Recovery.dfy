// A wiped node comes back: what the handoff tasks of all other nodes together make of it.
module Recovery {
  import opened Types
  import opened Lww
  import opened LocalStore
  import opened Hints
  import opened Coordinator
  import opened Handoff

  // How the push or the hint delivery of a key ends for the node that sends it.
  type SendRpc = NodeId -> Key -> Rpc

  // The return of a node, as the others see it: whom each of them finds online, what their stores and hint stores hold,
  // and how their requests end.
  datatype Return = Return(ring: Ring, n: nat, node: NodeId, online: NodeId -> set<NodeId>,
                           stores: map<NodeId, Db>, parked: map<NodeId, Db>, push: SendRpc, deliver: SendRpc) {
    // The writes of one node that are carried out: pushed keys and parked hints.
    ghost predicate FromNode(a: NodeId, w: Write)
      requires a in stores && a in parked
    {
      || (&& w.key in PushedKeys(stores[a], ring, n, a, node, online(a)) && Carried(push(a)(w.key))
          && Lookup(stores[a], w.key) == Some(w.value))
      || (Lookup(PendingFor(parked[a], node), w.key) == Some(w.value) && Carried(deliver(a)(w.key)))
    }

    ghost predicate FromSome(nodes: seq<NodeId>, w: Write)
      requires forall a :: a in nodes ==> a in stores && a in parked
    {
      exists a :: a in nodes && FromNode(a, w)
    }

    // The writes that are carried out.
    ghost predicate Arrives(w: Write) {
      exists a :: a in stores && a in parked && FromNode(a, w)
    }

    // All hints parked for the node.
    ghost function ParkedHints(): set<Write> {
      set a, k | a in parked && k in PendingFor(parked[a], node) :: Write(k, PendingFor(parked[a], node)[k])
    }

    // No request is lost, and all nodes find the same nodes online.
    ghost predicate IsSmooth(common: set<NodeId>) {
      && (forall a :: a in stores ==> online(a) == common)
      && (forall a, k :: a in stores ==> Carried(push(a)(k)) && Carried(deliver(a)(k)))
    }

    // The key holds the newest of the versions that arrive, or nothing if none arrives.
    ghost predicate IsNewest(db: Db, k: Key) {
      && (forall v :: Lookup(db, k) == Some(v) <==>
            Arrives(Write(k, v)) && forall u :: Arrives(Write(k, u)) ==> u.timestamp <= v.timestamp)
      && (Lookup(db, k).None? <==> forall v :: !Arrives(Write(k, v)))
    }

    // The key holds the newest of what the designated sender and the hints offer, or nothing if they offer nothing.
    ghost predicate IsRecovered(db: Db, common: set<NodeId>, k: Key) {
      && (forall v :: Lookup(db, k) == Some(v) <==>
            && Offered(stores, ring, n, node, common, ParkedHints(), k, v)
            && forall u :: Offered(stores, ring, n, node, common, ParkedHints(), k, u) ==> u.timestamp <= v.timestamp)
      && (Lookup(db, k).None? <==> forall v :: !Offered(stores, ring, n, node, common, ParkedHints(), k, v))
    }
  }

  // One handoff task handles the return: it reconciles and delivers its hints. Exactly the requests that are carried
  // out reach the node, whether they are acknowledged or not.
  method HandleReturn(ghost x: Return, self: NodeId, local: RocksDbStore, hints: HintStore, ring: Ring, n: nat,
                      returning: NodeId, online: set<NodeId>, target: RocksDbStore, push: Key -> Rpc,
                          deliver: Key -> Rpc)
    returns (ghost sent: seq<Write>)
    requires local != target && hints.Valid()
    requires x.ring == ring && x.n == n && x.node == returning && self in x.stores && self in x.parked
    requires x.online(self) == online && x.push(self) == push && x.deliver(self) == deliver
    requires x.stores[self] == local.db && x.parked[self] == hints.db
    modifies target, hints
    ensures hints.Valid() && hints.db == Undelivered(old(hints.db), returning, deliver)
    ensures target.db == ApplyAll(old(target.db), sent)
    ensures forall w :: w in sent <==> x.FromNode(self, w)
  {
    sent := ReturnWrites(x, self, target.db);
    ReconcileKeys(local, ring, n, self, returning, online, target, push);
    DeliverHints(hints, returning, target, deliver);
  }

  // The writes of one node's part, and what they make of a store.
  lemma ReturnWrites(x: Return, self: NodeId, db: Db) returns (sent: seq<Write>)
    requires self in x.stores && self in x.parked
    ensures forall w :: w in sent <==> x.FromNode(self, w)
    ensures var local, hints := x.stores[self], x.parked[self];
            var keys := set k | k in PushedKeys(local, x.ring, x.n, self, x.node, x.online(self))
                                && Carried(x.push(self)(k));
            ApplyAll(db, sent)
            == MergeKeys(MergeKeys(db, local, keys), PendingFor(hints, x.node),
                ReachingKeys(hints, x.node, x.deliver(self)))
  {
    var local, hints := x.stores[self], x.parked[self];
    var keys := set k | k in PushedKeys(local, x.ring, x.n, self, x.node, x.online(self)) && Carried(x.push(self)(k));
    var pending, reaching := PendingFor(hints, x.node), ReachingKeys(hints, x.node, x.deliver(self));
    var pushes := EntriesListed(local, keys);
    var deliveries := EntriesListed(pending, reaching);
    MergedInAnyOrder(db, local, keys, pushes);
    MergedInAnyOrder(ApplyAll(db, pushes), pending, reaching, deliveries);
    sent := pushes + deliveries;
    ApplyAllAppend(db, pushes, deliveries);
  }

  // What the stores hold when the return begins.
  ghost predicate Snapshot(x: Return, locals: map<NodeId, RocksDbStore>, parked: map<NodeId, HintStore>)
    reads locals.Values, parked.Values
  {
    && x.stores.Keys == locals.Keys && (forall a :: a in locals ==> x.stores[a] == locals[a].db)
    && x.parked.Keys == parked.Keys && (forall a :: a in parked ==> x.parked[a] == parked[a].db)
  }

  // Each node's hint store, before or after its delivery.
  ghost predicate Delivered(x: Return, parked: map<NodeId, HintStore>, done: seq<NodeId>)
    requires x.parked.Keys == parked.Keys
    reads parked.Values
  {
    forall a :: a in parked ==>
      && parked[a].Valid()
      && parked[a].db == if a in done then Undelivered(x.parked[a], x.node, x.deliver(a)) else x.parked[a]
  }

  method HandleNext(ghost x: Return, ghost done: seq<NodeId>, a: NodeId, local: RocksDbStore,
                    parked: map<NodeId, HintStore>,
                    ring: Ring, n: nat, returning: NodeId, online: set<NodeId>, target: RocksDbStore,
                    push: Key -> Rpc, deliver: Key -> Rpc)
    returns (ghost sent: seq<Write>)
    requires a in parked && a !in done && local != target
    requires x.ring == ring && x.n == n && x.node == returning && a in x.stores && x.stores[a] == local.db
    requires x.online(a) == online && x.push(a) == push && x.deliver(a) == deliver
    requires x.parked.Keys == parked.Keys && Delivered(x, parked, done)
    requires forall a, b :: a in parked && b in parked && a != b ==> parked[a] != parked[b]
    modifies target, parked[a]
    ensures Delivered(x, parked, done + [a])
    ensures target.db == ApplyAll(old(target.db), sent)
    ensures forall w :: w in sent <==> x.FromNode(a, w)
  {
    sent := HandleReturn(x, a, local, parked[a], ring, n, returning, online, target, push, deliver);
  }

  lemma OneNodeMore(x: Return, arrived: seq<Write>, sent: seq<Write>, nodes: seq<NodeId>, a: NodeId)
    requires forall b :: b in nodes + [a] ==> b in x.stores && b in x.parked
    requires forall w :: w in arrived <==> x.FromSome(nodes, w)
    requires forall w :: w in sent <==> x.FromNode(a, w)
    ensures forall w :: w in arrived + sent <==> x.FromSome(nodes + [a], w)
  {
    forall w ensures w in arrived + sent <==> x.FromSome(nodes + [a], w) {
      if w in arrived {
        var b :| b in nodes && x.FromNode(b, w);
        assert b in nodes + [a];
      } else if w in sent {
        assert a in nodes + [a];
      }
    }
  }

  // All nodes' tasks, in any order.
  method HandleReturns(ghost x: Return, nodes: seq<NodeId>, locals: map<NodeId, RocksDbStore>,
                       parked: map<NodeId, HintStore>,
                       ring: Ring, n: nat, returning: NodeId, online: NodeId -> set<NodeId>, target: RocksDbStore,
                       push: SendRpc, deliver: SendRpc)
    returns (ghost arrived: seq<Write>)
    requires Distinct(nodes) && (forall a :: a in nodes ==> a in locals && a in parked)
    requires target !in locals.Values
    requires x == Return(ring, n, returning, online, x.stores, x.parked, push, deliver)
    requires Snapshot(x, locals, parked) && Delivered(x, parked, [])
    requires forall a, b :: a in parked && b in parked && a != b ==> parked[a] != parked[b]
    modifies target, parked.Values
    ensures target.db == ApplyAll(old(target.db), arrived)
    ensures forall w :: w in arrived <==> x.FromSome(nodes, w)
    ensures Delivered(x, parked, nodes)
  {
    arrived := [];
    for i := 0 to |nodes|
      invariant target.db == ApplyAll(old(target.db), arrived)
      invariant forall w :: w in arrived <==> x.FromSome(nodes[..i], w)
      invariant Delivered(x, parked, nodes[..i])
    {
      var a := nodes[i];
      PrefixStep(nodes, i);
      ghost var sent := HandleNext(x, nodes[..i], a, locals[a], parked, ring, n, returning, online(a), target, push(a),
          deliver(a));
      ApplyAllAppend(old(target.db), arrived, sent);
      OneNodeMore(x, arrived, sent, nodes[..i], a);
      arrived := arrived + sent;
    }
    assert nodes[..|nodes|] == nodes;
  }

  // The tasks of all nodes handle the return of a wiped node. Whatever requests are lost and whomever each node finds
  // online, its store ends, key by key, with the newest of the versions that arrive, and of the hints exactly those
  // acknowledged are gone. If no request is lost and all find the same nodes online, that is the newest of the
  // designated sender's entry and the hints; exactly the designated sender's entry if no hints were parked; and what
  // the node held before, for the keys on which the others agreed with it.
  method RecoverNode(ghost x: Return, nodes: seq<NodeId>, locals: map<NodeId, RocksDbStore>,
                     parked: map<NodeId, HintStore>,
                     ring: Ring, n: nat, returning: NodeId, online: NodeId -> set<NodeId>, target: RocksDbStore,
                     push: SendRpc, deliver: SendRpc, ghost was: Db, ghost common: set<NodeId>)
    requires x == Return(ring, n, returning, online, x.stores, x.parked, push, deliver) && Snapshot(x, locals, parked)
    requires Distinct(nodes) && Elements(nodes) == locals.Keys == parked.Keys
    requires target.db == map[] && target !in locals.Values
    requires forall a :: a in parked ==> parked[a].Valid()
    requires forall a, b :: a in parked && b in parked && a != b ==> parked[a] != parked[b]
    modifies target, parked.Values
    ensures TimestampsDetermine(iset w | x.Arrives(w)) ==> forall k :: x.IsNewest(target.db, k)
    ensures x.IsSmooth(common) && TimestampsDetermine(iset w | x.Arrives(w)) ==>
            forall k :: x.IsRecovered(target.db, common, k)
    ensures x.IsSmooth(common) && x.ParkedHints() == {}
            ==> forall k :: Lookup(target.db, k) == SendersEntry(x.stores, ring, n, returning, common, k)
    ensures x.IsSmooth(common) && x.ParkedHints() == {}
            ==> forall k :: AgreedBefore(was, x.stores, ring, n, returning, common, k) ==>
                Lookup(target.db, k) == Lookup(was, k)
    ensures forall a :: a in parked ==>
            parked[a].Valid() && parked[a].db == Undelivered(x.parked[a], returning, deliver(a))
  {
    assert forall a :: a in nodes <==> a in Elements(nodes);
    ghost var arrived := HandleReturns(x, nodes, locals, parked, ring, n, returning, online, target, push, deliver);
    ArrivedIffArrives(x, nodes, arrived);
    NewestAtEnd(x, target.db, arrived);
    if x.IsSmooth(common) {
      SmoothEnd(x, target.db, was, common, arrived);
    }
  }

  lemma ArrivedIffArrives(x: Return, nodes: seq<NodeId>, arrived: seq<Write>)
    requires (forall a :: a in nodes <==> a in x.stores) && (forall a :: a in nodes <==> a in x.parked)
    requires forall w :: w in arrived <==> x.FromSome(nodes, w)
    ensures forall w :: w in arrived <==> x.Arrives(w)
  {
    forall w | x.Arrives(w) ensures x.FromSome(nodes, w) {
      var a :| a in x.stores && a in x.parked && x.FromNode(a, w);
      assert a in nodes;
    }
  }

  lemma NewestAtEnd(x: Return, db: Db, arrived: seq<Write>)
    requires db == ApplyAll(map[], arrived) && forall w :: w in arrived <==> x.Arrives(w)
    ensures TimestampsDetermine(iset w | x.Arrives(w)) ==> forall k :: x.IsNewest(db, k)
  {
    if TimestampsDetermine(iset w | x.Arrives(w)) {
      assert TimestampsDetermine(iset w | w in arrived);
      forall k ensures x.IsNewest(db, k) {
        NewestOfArrived(arrived, k);
      }
    }
  }

  lemma SmoothArrives(x: Return, common: set<NodeId>, w: Write)
    requires x.IsSmooth(common) && x.stores.Keys == x.parked.Keys
    ensures x.Arrives(w) <==> Sent(x.stores, x.ring, x.n, x.node, common, w) || w in x.ParkedHints()
  {
    if Sent(x.stores, x.ring, x.n, x.node, common, w) {
      var a :| a in x.stores && w.key in PushedKeys(x.stores[a], x.ring, x.n, a, x.node, common)
          && x.stores[a][w.key] == w.value;
      assert x.FromNode(a, w);
    }
    if w in x.ParkedHints() {
      var a, k :| a in x.parked && k in PendingFor(x.parked[a], x.node)
          && w == Write(k, PendingFor(x.parked[a], x.node)[k]);
      assert x.FromNode(a, w);
    }
  }

  lemma SmoothNewest(x: Return, db: Db, common: set<NodeId>, arrived: seq<Write>)
    requires db == ApplyAll(map[], arrived) && forall w :: w in arrived <==> x.Arrives(w)
    requires forall w :: w in arrived <==> Sent(x.stores, x.ring, x.n, x.node, common, w) || w in x.ParkedHints()
    ensures TimestampsDetermine(iset w | x.Arrives(w)) ==> forall k :: x.IsRecovered(db, common, k)
  {
    if TimestampsDetermine(iset w | x.Arrives(w)) {
      assert TimestampsDetermine(iset w | w in arrived);
      forall k ensures x.IsRecovered(db, common, k) {
        WipeRecovery(x.stores, x.ring, x.n, x.node, common, x.ParkedHints(), arrived, k);
      }
    }
  }

  lemma SmoothEnd(x: Return, db: Db, was: Db, common: set<NodeId>, arrived: seq<Write>)
    requires x.IsSmooth(common) && x.stores.Keys == x.parked.Keys
    requires db == ApplyAll(map[], arrived) && forall w :: w in arrived <==> x.Arrives(w)
    ensures TimestampsDetermine(iset w | x.Arrives(w)) ==> forall k :: x.IsRecovered(db, common, k)
    ensures x.ParkedHints() == {} ==> forall k ::
            Lookup(db, k) == SendersEntry(x.stores, x.ring, x.n, x.node, common, k)
    ensures x.ParkedHints() == {}
            ==> forall k :: AgreedBefore(was, x.stores, x.ring, x.n, x.node, common, k) ==>
                Lookup(db, k) == Lookup(was, k)
  {
    forall w ensures w in arrived <==> Sent(x.stores, x.ring, x.n, x.node, common, w) || w in x.ParkedHints() {
      SmoothArrives(x, common, w);
    }
    SmoothNewest(x, db, common, arrived);
    if x.ParkedHints() == {} {
      forall k ensures Lookup(db, k) == SendersEntry(x.stores, x.ring, x.n, x.node, common, k) {
        RecoveredEntry(x.stores, x.ring, x.n, x.node, common, arrived, k);
      }
      forall k | AgreedBefore(was, x.stores, x.ring, x.n, x.node, common, k) ensures Lookup(db, k) == Lookup(was, k) {
        RegainsOldEntries(was, x.stores, x.ring, x.n, x.node, common, arrived, k);
      }
    }
  }
}
