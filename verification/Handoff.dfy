// What the handoff task spawns: hint delivery to a node, and reconciliation of a node whose UUID is new.
module Handoff {
  import opened Types
  import opened ByteOrder
  import opened Lww
  import opened LocalStore
  import opened Hints
  import opened Coordinator

  // A store that has merged another's entries for some keys. Different keys do not interact, so the order in which
  // they arrive plays no part.
  function MergeKeys(db: Db, source: Db, keys: set<Key>): Db {
    map k | k in db.Keys + keys * source.Keys ::
      if k in keys && k in source then Merge(Lookup(db, k), source[k]) else db[k]
  }

  lemma MergeKeysAt(db: Db, source: Db, keys: set<Key>, k: Key)
    ensures Lookup(MergeKeys(db, source, keys), k)
            == if k in keys && k in source then Some(Merge(Lookup(db, k), source[k])) else Lookup(db, k)
  {
  }

  lemma MergeNone(db: Db, source: Db)
    ensures MergeKeys(db, source, {}) == db
  {
  }

  lemma MergeOneMore(db: Db, source: Db, keys: set<Key>, k: Key)
    requires k !in keys && k in source
    ensures MergeKeys(db, source, keys + {k}) == Apply(MergeKeys(db, source, keys), Write(k, source[k]))
  {
  }

  lemma SameEntries(a: Db, b: Db)
    requires forall k :: Lookup(a, k) == Lookup(b, k)
    ensures a == b
  {
    forall k ensures k in a <==> k in b {
      assert Lookup(a, k) == Lookup(b, k);
    }
    forall k | k in a ensures a[k] == b[k] {
      assert Lookup(a, k) == Lookup(b, k);
    }
  }

  // The entries of a store for some keys, as writes.
  ghost predicate AreEntries(ws: seq<Write>, source: Db, keys: set<Key>) {
    forall w :: w in ws <==> w.key in keys && Lookup(source, w.key) == Some(w.value)
  }

  lemma EntriesAt(ws: seq<Write>, source: Db, keys: set<Key>, k: Key)
    requires AreEntries(ws, source, keys)
    ensures forall v :: v in ForKey(ws, k) <==> k in keys && Lookup(source, k) == Some(v)
  {
    ForKeyMembers(ws, k);
  }

  lemma HeadIsIn(s: seq<Versioned>)
    ensures s == [] || s[0] in s
  {
  }

  // Merging the entries of a store for some keys is receiving each of them as a versioned write, in any order and
  // any number of times.
  lemma MergedInAnyOrder(db: Db, source: Db, keys: set<Key>, ws: seq<Write>)
    requires AreEntries(ws, source, keys)
    ensures ApplyAll(db, ws) == MergeKeys(db, source, keys)
  {
    var a, b := ApplyAll(db, ws), MergeKeys(db, source, keys);
    forall k ensures Lookup(a, k) == Lookup(b, k) {
      ApplyAllPerKey(db, ws, k);
      EntriesAt(ws, source, keys, k);
      if k in keys && k in source {
        NewestAlone(Lookup(db, k), ForKey(ws, k), source[k]);
      } else {
        HeadIsIn(ForKey(ws, k));
      }
    }
    SameEntries(a, b);
  }

  lemma {:induction false} EntriesListed(source: Db, keys: set<Key>) returns (ws: seq<Write>)
    ensures AreEntries(ws, source, keys)
  {
    if keys == {} {
      ws := [];
    } else {
      var k :| k in keys;
      var rest := EntriesListed(source, keys - {k});
      ws := (if k in source then [Write(k, source[k])] else []) + rest;
    }
  }

  // --- hint delivery ---

  // The hints that a scan for a node finds.
  ghost function PendingFor(hints: Db, node: NodeId): Db {
    var keys := set c | c in hints && node + [SLASH] <= c :: c[|node| + 1..];
    map k | k in keys && HintKey(node, k) in hints :: hints[HintKey(node, k)]
  }

  lemma PendingAt(hints: Db, node: NodeId, k: Key)
    ensures Lookup(PendingFor(hints, node), k) == Lookup(hints, HintKey(node, k))
  {
    if HintKey(node, k) in hints {
      assert HintKey(node, k) == node + [SLASH] + k;
      assert HintKey(node, k)[|node| + 1..] == k;
    }
  }

  // Each key occurs once, with its entry in a store.
  ghost predicate AreDistinctEntries(items: seq<(Key, Versioned)>, source: Db) {
    && (forall i, j :: 0 <= i < j < |items| ==> items[i].0 != items[j].0)
    && (forall i :: 0 <= i < |items| ==> Lookup(source, items[i].0) == Some(items[i].1))
  }

  lemma ScannedOnce(items: seq<(Key, Versioned)>, source: Db)
    requires forall i, j :: 0 <= i < j < |items| ==> Less(items[i].0, items[j].0)
    requires forall k, v :: (k, v) in items ==> Lookup(source, k) == Some(v)
    ensures AreDistinctEntries(items, source)
  {
    forall i, j | 0 <= i < j < |items| ensures items[i].0 != items[j].0 {
      LessIrreflexive(items[i].0);
    }
    forall i | 0 <= i < |items| ensures Lookup(source, items[i].0) == Some(items[i].1) {
      assert (items[i].0, items[i].1) in items;
    }
  }

  method DeliverOne(hints: HintStore, node: NodeId, key: Key, v: Versioned, target: RocksDbStore, rpc: Rpc)
    requires hints.Valid()
    modifies hints, target
    ensures hints.Valid()
    ensures hints.db == if rpc == Acked then old(hints.db) - {HintKey(node, key)} else old(hints.db)
    ensures target.db == if Carried(rpc) then Apply(old(target.db), Write(key, v)) else old(target.db)
  {
    if Carried(rpc) {
      target.PutIfNewer(key, v.data, v.timestamp);
    }
    if rpc == Acked {
      hints.DeleteHint(node, key);
    }
  }

  // The keys that the first i hints of a delivery bring to the target, and the compound keys that it deletes for them.
  ghost function BroughtBy(pending: seq<(Key, Versioned)>, i: nat, rpc: Key -> Rpc): set<Key>
    requires i <= |pending|
  {
    set j | 0 <= j < i && Carried(rpc(pending[j].0)) :: pending[j].0
  }

  ghost function DeletedBy(node: NodeId, pending: seq<(Key, Versioned)>, i: nat, rpc: Key -> Rpc): set<Bytes>
    requires i <= |pending|
  {
    set j | 0 <= j < i && rpc(pending[j].0) == Acked :: HintKey(node, pending[j].0)
  }

  // One turn of the loop brings both stores one hint further.
  lemma OneMoreDeleted(hints: Db, node: NodeId, pending: seq<(Key, Versioned)>, i: nat, rpc: Key -> Rpc)
    requires i < |pending|
    ensures var k, hints' := pending[i].0, hints - DeletedBy(node, pending, i, rpc);
            (if rpc(k) == Acked then hints' - {HintKey(node, k)} else hints')
                == hints - DeletedBy(node, pending, i + 1, rpc)
  {
    var k := pending[i].0;
    assert DeletedBy(node, pending, i + 1, rpc) == DeletedBy(node, pending, i, rpc) + if rpc(k) == Acked
           then {HintKey(node, k)} else {};
  }

  lemma OneMoreBrought(db: Db, source: Db, pending: seq<(Key, Versioned)>, i: nat, rpc: Key -> Rpc)
    requires i < |pending| && AreDistinctEntries(pending, source)
    ensures var (k, v) := pending[i];
            var db' := MergeKeys(db, source, BroughtBy(pending, i, rpc));
            (if Carried(rpc(k)) then Apply(db', Write(k, v)) else db')
                == MergeKeys(db, source, BroughtBy(pending, i + 1, rpc))
  {
    var k := pending[i].0;
    assert BroughtBy(pending, i + 1, rpc) == BroughtBy(pending, i, rpc) + if Carried(rpc(k)) then {k} else {};
    MergeOneMore(db, source, BroughtBy(pending, i, rpc), k);
  }

  // The loop of a delivery.
  method DeliverEach(hints: HintStore, node: NodeId, pending: seq<(Key, Versioned)>, ghost source: Db,
                     target: RocksDbStore, rpc: Key -> Rpc)
    requires hints.Valid()
    requires AreDistinctEntries(pending, source)
    modifies hints, target
    ensures hints.Valid()
    ensures hints.db == old(hints.db) - DeletedBy(node, pending, |pending|, rpc)
    ensures target.db == MergeKeys(old(target.db), source, BroughtBy(pending, |pending|, rpc))
  {
    NothingYet(old(hints.db), old(target.db), source, node, pending, rpc);
    for i := 0 to |pending|
      invariant hints.Valid()
      invariant hints.db == old(hints.db) - DeletedBy(node, pending, i, rpc)
      invariant target.db == MergeKeys(old(target.db), source, BroughtBy(pending, i, rpc))
    {
      OneMoreDeleted(old(hints.db), node, pending, i, rpc);
      OneMoreBrought(old(target.db), source, pending, i, rpc);
      DeliverOne(hints, node, pending[i].0, pending[i].1, target, rpc(pending[i].0));
    }
  }

  lemma NothingYet(hints: Db, db: Db, source: Db, node: NodeId, pending: seq<(Key, Versioned)>, rpc: Key -> Rpc)
    ensures hints - DeletedBy(node, pending, 0, rpc) == hints && MergeKeys(db, source, BroughtBy(pending, 0, rpc)) == db
  {
  }

  // The hint database once the acknowledged hints of a node are gone.
  function Undelivered(hints: Db, node: NodeId, rpc: Key -> Rpc): Db {
    map c | c in hints && !(node + [SLASH] <= c && rpc(c[|node| + 1..]) == Acked) :: hints[c]
  }

  // Sends every pending hint of a node to it, one after the other, and deletes each one that it acknowledged. What
  // remains is exactly the hints that were not acknowledged and those of other nodes; the target has merged exactly
  // the hints that reached it.
  method DeliverHints(hints: HintStore, node: NodeId, target: RocksDbStore, rpc: Key -> Rpc)
    requires hints.Valid()
    modifies hints, target
    ensures hints.Valid()
    ensures hints.db == Undelivered(old(hints.db), node, rpc)
    ensures target.db == MergeKeys(old(target.db), PendingFor(old(hints.db), node),
            ReachingKeys(old(hints.db), node, rpc))
    // So a hint is gone only where the target holds it or something newer.
    ensures forall k :: HintKey(node, k) in old(hints.db) && HintKey(node, k) !in hints.db
                        ==> AtLeast(Lookup(target.db, k), old(hints.db)[HintKey(node, k)].timestamp)
    // The same entry by entry: a hint is gone exactly if it is the node's and was acknowledged, and the target's entry
    // of a key is replaced exactly where a hint that is newer, or the first of its key, was carried out.
    ensures IsDelivered(old(hints.db), hints.db, old(target.db), target.db, node, rpc)
  {
    var pending := hints.HintsForNode(node);
    forall k, v ensures (k, v) in pending <==> Lookup(PendingFor(hints.db, node), k) == Some(v) {
      PendingAt(hints.db, node, k);
    }
    ScannedOnce(pending, PendingFor(hints.db, node));
    DeliverEach(hints, node, pending, PendingFor(hints.db, node), target, rpc);
    GoneAre(old(hints.db), node, pending, rpc);
    SentAre(old(hints.db), node, pending, rpc);
    forall k | HintKey(node, k) in old(hints.db) && HintKey(node, k) !in hints.db
      ensures AtLeast(Lookup(target.db, k), old(hints.db)[HintKey(node, k)].timestamp)
    {
      DeletedWasMerged(old(hints.db), node, rpc, old(target.db), k);
    }
    DeliveryTold(old(hints.db), old(target.db), node, rpc);
  }

  // A delivery, entry by entry. 47 is the byte of the slash.
  ghost predicate IsDelivered(hints: Db, hints': Db, db: Db, db': Db, node: NodeId, rpc: Key -> Rpc) {
    && (forall x ::
          Lookup(hints', x) == if exists k :: x == node + [47] + k && rpc(k) == Acked then None else Lookup(hints, x))
    && (forall k ::
          Lookup(db', k) == var x := node + [47] + k;
                            if x in hints && rpc(k) != FailedLost && (k !in db || db[k].timestamp < hints[x].timestamp)
                            then Some(hints[x]) else Lookup(db, k))
  }

  lemma DeliveryTold(hints: Db, db: Db, node: NodeId, rpc: Key -> Rpc)
    ensures IsDelivered(hints, Undelivered(hints, node, rpc),
                        db, MergeKeys(db, PendingFor(hints, node), ReachingKeys(hints, node, rpc)), node, rpc)
  {
    forall x
      ensures Lookup(Undelivered(hints, node, rpc), x)
              == if exists k :: x == node + [47] + k && rpc(k) == Acked then None else Lookup(hints, x)
    {
      UndeliveredAt(hints, node, rpc, x);
    }
    forall k
      ensures Lookup(MergeKeys(db, PendingFor(hints, node), ReachingKeys(hints, node, rpc)), k)
              == var x := node + [47] + k;
                 if x in hints && rpc(k) != FailedLost && (k !in db || db[k].timestamp < hints[x].timestamp)
                 then Some(hints[x]) else Lookup(db, k)
    {
      DeliveredAt(hints, db, node, rpc, k);
    }
  }

  lemma UndeliveredAt(hints: Db, node: NodeId, rpc: Key -> Rpc, x: Bytes)
    ensures Lookup(Undelivered(hints, node, rpc), x)
            == if exists k :: x == node + [47] + k && rpc(k) == Acked then None else Lookup(hints, x)
  {
    if k :| x == node + [47] + k && rpc(k) == Acked {
      assert node + [SLASH] <= x && x[|node| + 1..] == k;
    } else if node + [SLASH] <= x {
      assert x == node + [47] + x[|node| + 1..];
    }
  }

  lemma DeliveredAt(hints: Db, db: Db, node: NodeId, rpc: Key -> Rpc, k: Key)
    ensures Lookup(MergeKeys(db, PendingFor(hints, node), ReachingKeys(hints, node, rpc)), k)
            == var x := node + [47] + k;
               if x in hints && rpc(k) != FailedLost && (k !in db || db[k].timestamp < hints[x].timestamp)
               then Some(hints[x]) else Lookup(db, k)
  {
    PendingAt(hints, node, k);
    MergeKeysAt(db, PendingFor(hints, node), ReachingKeys(hints, node, rpc), k);
  }

  // The keys whose hints reach the node.
  ghost function ReachingKeys(hints: Db, node: NodeId, rpc: Key -> Rpc): set<Key> {
    set k | k in PendingFor(hints, node) && Carried(rpc(k))
  }

  lemma DeletedWasMerged(hints: Db, node: NodeId, rpc: Key -> Rpc, target: Db, k: Key)
    requires HintKey(node, k) in hints && HintKey(node, k) !in Undelivered(hints, node, rpc)
    ensures AtLeast(Lookup(MergeKeys(target, PendingFor(hints, node), ReachingKeys(hints, node, rpc)), k),
            hints[HintKey(node, k)].timestamp)
  {
    assert HintKey(node, k)[|node| + 1..] == k;
    PendingAt(hints, node, k);
  }

  lemma GoneAre(hints: Db, node: NodeId, pending: seq<(Key, Versioned)>, rpc: Key -> Rpc)
    requires forall k, v :: (k, v) in pending <==> Lookup(PendingFor(hints, node), k) == Some(v)
    ensures hints - DeletedBy(node, pending, |pending|, rpc) == Undelivered(hints, node, rpc)
  {
    var gone := DeletedBy(node, pending, |pending|, rpc);
    forall c | c in hints ensures c in gone <==> node + [SLASH] <= c && rpc(c[|node| + 1..]) == Acked {
      if node + [SLASH] <= c {
        var k := c[|node| + 1..];
        assert c == HintKey(node, k);
        PendingAt(hints, node, k);
        assert (k, hints[c]) in pending;
        var j :| 0 <= j < |pending| && pending[j] == (k, hints[c]);
      }
      if c in gone {
        var j :| 0 <= j < |pending| && c == HintKey(node, pending[j].0) && rpc(pending[j].0) == Acked;
        assert c[|node| + 1..] == pending[j].0;
      }
    }
  }

  lemma SentAre(hints: Db, node: NodeId, pending: seq<(Key, Versioned)>, rpc: Key -> Rpc)
    requires forall k, v :: (k, v) in pending <==> Lookup(PendingFor(hints, node), k) == Some(v)
    ensures BroughtBy(pending, |pending|, rpc) == ReachingKeys(hints, node, rpc)
  {
    var source, sent := PendingFor(hints, node), BroughtBy(pending, |pending|, rpc);
    forall k ensures k in sent <==> k in source && Carried(rpc(k)) {
      if k in source {
        assert (k, source[k]) in pending;
      }
      if k in sent {
        var j :| 0 <= j < |pending| && k == pending[j].0 && Carried(rpc(k));
        assert (pending[j].0, pending[j].1) in pending;
      }
    }
  }

  // In terms of the hint map: deliveries for a slash-free node remove exactly its acknowledged hints.
  lemma UndeliveredContents(hints: Db, node: NodeId, rpc: Key -> Rpc, t: NodeId, k: Key)
    requires Wellformed(hints) && ValidTarget(node)
    ensures (t, k) in Contents(Undelivered(hints, node, rpc))
            <==> (t, k) in Contents(hints) && !(t == node && rpc(k) == Acked)
    ensures (t, k) in Contents(Undelivered(hints, node, rpc)) ==>
            Contents(Undelivered(hints, node, rpc))[(t, k)] == Contents(hints)[(t, k)]
  {
    var c := HintKey(t, k);
    ContentsAt(hints, t, k);
    ContentsAt(Undelivered(hints, node, rpc), t, k);
    if ValidTarget(t) {
      if node + [SLASH] <= c {
        assert c == HintKey(node, c[|node| + 1..]);
        HintKeyInjective(t, k, node, c[|node| + 1..]);
      } else if t == node {
        assert c == node + [SLASH] + k;
      }
    }
  }

  // --- reconciliation ---

  // The first preferred node that is online and not the returning node.
  function Designated(preferred: seq<NodeId>, returning: NodeId, online: set<NodeId>): Option<NodeId> {
    if preferred == [] then None
    else if preferred[0] != returning && preferred[0] in online then Some(preferred[0])
    else Designated(preferred[1..], returning, online)
  }

  // The keys that a node pushes to a returning node.
  function PushedKeys(db: Db, ring: Ring, n: nat, self: NodeId, returning: NodeId, online: set<NodeId>): set<Key> {
    set k | k in db && Designated(PreferenceList(ring, n, k), returning, online) == Some(self)
  }

  // The keys that the first i items of a scan lead a node to push, as far as the pushes are carried out.
  ghost function PushedBy(items: seq<(Key, Versioned)>, i: nat, ring: Ring, n: nat, self: NodeId, returning: NodeId,
                          online: set<NodeId>, rpc: Key -> Rpc): set<Key>
    requires i <= |items|
  {
    set j | 0 <= j < i && Designated(PreferenceList(ring, n, items[j].0), returning, online) == Some(self)
        && Carried(rpc(items[j].0)) :: items[j].0
  }

  lemma OneKeyMore(db: Db, source: Db, items: seq<(Key, Versioned)>, i: nat, ring: Ring, n: nat, self: NodeId,
                   returning: NodeId, online: set<NodeId>, rpc: Key -> Rpc)
    requires i < |items| && AreDistinctEntries(items, source)
    ensures var k, v := items[i].0, items[i].1;
            var db' := MergeKeys(db, source, PushedBy(items, i, ring, n, self, returning, online, rpc));
            (if Designated(PreferenceList(ring, n, k), returning, online) == Some(self) && Carried(rpc(k))
                then Apply(db', Write(k, v)) else db')
            == MergeKeys(db, source, PushedBy(items, i + 1, ring, n, self, returning, online, rpc))
  {
    var k := items[i].0;
    var before, after := PushedBy(items, i, ring, n, self, returning, online, rpc),
        PushedBy(items, i + 1, ring, n, self, returning, online, rpc);
    assert after == before + if Designated(PreferenceList(ring, n, k), returning, online) == Some(self)
           && Carried(rpc(k)) then {k} else {};
    MergeOneMore(db, source, before, k);
  }

  lemma AllPushed(source: Db, items: seq<(Key, Versioned)>, ring: Ring, n: nat, self: NodeId, returning: NodeId,
                  online: set<NodeId>, rpc: Key -> Rpc)
    requires AreDistinctEntries(items, source) && forall k :: k in source ==> (k, source[k]) in items
    ensures PushedBy(items, |items|, ring, n, self, returning, online, rpc)
            == set k | k in PushedKeys(source, ring, n, self, returning, online) && Carried(rpc(k))
  {
    forall k | k in PushedKeys(source, ring, n, self, returning, online) && Carried(rpc(k))
      ensures k in PushedBy(items, |items|, ring, n, self, returning, online, rpc)
    {
      assert (k, source[k]) in items;
      var j :| 0 <= j < |items| && items[j] == (k, source[k]);
    }
  }

  // One turn of a reconciliation's loop.
  method PushOne(items: seq<(Key, Versioned)>, i: nat, ghost source: Db, ghost before: Db, ring: Ring, n: nat,
                 self: NodeId, returning: NodeId, online: set<NodeId>, target: RocksDbStore, rpc: Key -> Rpc)
    requires i < |items| && AreDistinctEntries(items, source)
    requires target.db == MergeKeys(before, source, PushedBy(items, i, ring, n, self, returning, online, rpc))
    modifies target
    ensures target.db == MergeKeys(before, source, PushedBy(items, i + 1, ring, n, self, returning, online, rpc))
  {
    OneKeyMore(before, source, items, i, ring, n, self, returning, online, rpc);
    var key, v := items[i].0, items[i].1;
    var designated := Designated(PreferenceList(ring, n, key), returning, online);
    if designated != Some(self) {
      return;
    }
    if Carried(rpc(key)) {
      target.PutIfNewer(key, v.data, v.timestamp);
    }
  }

  // The loop over the items of the scan.
  method PushEach(items: seq<(Key, Versioned)>, ghost source: Db, ring: Ring, n: nat, self: NodeId, returning: NodeId,
                  online: set<NodeId>, target: RocksDbStore, rpc: Key -> Rpc)
    requires AreDistinctEntries(items, source)
    modifies target
    ensures target.db == MergeKeys(old(target.db), source,
            PushedBy(items, |items|, ring, n, self, returning, online, rpc))
  {
    ghost var before := target.db;
    MergeNone(before, source);
    assert PushedBy(items, 0, ring, n, self, returning, online, rpc) == {};
    for i := 0 to |items|
      invariant target.db == MergeKeys(before, source, PushedBy(items, i, ring, n, self, returning, online, rpc))
    {
      PushOne(items, i, source, before, ring, n, self, returning, online, target, rpc);
    }
  }

  // The scan is a snapshot, so it does no harm that a node may see itself return and be its own target.
  method ReconcileKeys(local: RocksDbStore, ring: Ring, n: nat, self: NodeId, returning: NodeId, online: set<NodeId>,
                       target: RocksDbStore, rpc: Key -> Rpc)
    modifies target
    ensures target.db == MergeKeys(old(target.db), old(local.db),
                                   set k | k in PushedKeys(old(local.db), ring, n, self, returning, online)
                                       && Carried(rpc(k)))
    // The same told from the ring order, key by key: the target's entry is replaced exactly where this node is the
    // sender, its push was carried out, and its entry is newer or the first.
    ensures IsReconciled(old(target.db), target.db, old(local.db), ring, n, self, returning, online, rpc)
  {
    var items := local.IterAll();
    ScannedOnce(items, local.db);
    AllPushed(local.db, items, ring, n, self, returning, online, rpc);
    PushEach(items, local.db, ring, n, self, returning, online, target, rpc);
    ReconciliationTold(old(local.db), old(target.db), ring, n, self, returning, online, rpc);
  }

  ghost predicate IsReconciled(db: Db, db': Db, local: Db, ring: Ring, n: nat, self: NodeId, returning: NodeId,
                               online: set<NodeId>, rpc: Key -> Rpc)
  {
    forall k :: Lookup(db', k)
                == if && k in local && IsSender(ring, n, self, returning, online, k) && rpc(k) != FailedLost
                      && (k !in db || db[k].timestamp < local[k].timestamp)
                   then Some(local[k]) else Lookup(db, k)
  }

  lemma ReconciliationTold(local: Db, db: Db, ring: Ring, n: nat, self: NodeId, returning: NodeId, online: set<NodeId>,
                           rpc: Key -> Rpc)
    ensures var keys := set k | k in PushedKeys(local, ring, n, self, returning, online) && Carried(rpc(k));
            IsReconciled(db, MergeKeys(db, local, keys), local, ring, n, self, returning, online, rpc)
  {
    var keys := set k | k in PushedKeys(local, ring, n, self, returning, online) && Carried(rpc(k));
    forall k
      ensures Lookup(MergeKeys(db, local, keys), k)
              == if && k in local && IsSender(ring, n, self, returning, online, k) && rpc(k) != FailedLost
                    && (k !in db || db[k].timestamp < local[k].timestamp)
                 then Some(local[k]) else Lookup(db, k)
    {
      ReconciledAt(local, db, ring, n, self, returning, online, rpc, k);
    }
  }

  // The node is the first among the first n of the key's ring order that is online and not the returner.
  ghost predicate IsSender(ring: Ring, n: nat, self: NodeId, returning: NodeId, online: set<NodeId>, k: Key) {
    && ring(k).Some? && self in online && self != returning
    && exists i :: && 0 <= i < n && i < |ring(k).value| && ring(k).value[i] == self
                   && forall j :: 0 <= j < i ==> ring(k).value[j] !in online || ring(k).value[j] == returning
  }

  lemma SenderIsDesignated(ring: Ring, n: nat, self: NodeId, returning: NodeId, online: set<NodeId>, k: Key)
    ensures IsSender(ring, n, self, returning, online, k)
            <==> Designated(PreferenceList(ring, n, k), returning, online) == Some(self)
  {
    var preferred := PreferenceList(ring, n, k);
    DesignatedIsFirst(preferred, returning, online, self);
    if ring(k).Some? {
      assert |preferred| == if n <= |ring(k).value| then n else |ring(k).value|;
      assert forall i :: 0 <= i < |preferred| ==> preferred[i] == ring(k).value[i];
      if IsSender(ring, n, self, returning, online, k) {
        var i :| && 0 <= i < n && i < |ring(k).value| && ring(k).value[i] == self
                 && forall j :: 0 <= j < i ==> ring(k).value[j] !in online || ring(k).value[j] == returning;
        assert preferred[i] == self;
      }
    }
  }

  lemma ReconciledAt(local: Db, db: Db, ring: Ring, n: nat, self: NodeId, returning: NodeId, online: set<NodeId>,
                     rpc: Key -> Rpc, k: Key)
    ensures var keys := set k | k in PushedKeys(local, ring, n, self, returning, online) && Carried(rpc(k));
            Lookup(MergeKeys(db, local, keys), k)
            == if && k in local && IsSender(ring, n, self, returning, online, k) && rpc(k) != FailedLost
                  && (k !in db || db[k].timestamp < local[k].timestamp)
               then Some(local[k]) else Lookup(db, k)
  {
    SenderIsDesignated(ring, n, self, returning, online, k);
    var keys := set k | k in PushedKeys(local, ring, n, self, returning, online) && Carried(rpc(k));
    MergeKeysAt(db, local, keys, k);
  }

  ghost predicate IsFirstEligible(preferred: seq<NodeId>, returning: NodeId, online: set<NodeId>, d: NodeId) {
    exists i :: 0 <= i < |preferred| && preferred[i] == d && d != returning && d in online
                && forall j :: 0 <= j < i ==> preferred[j] == returning || preferred[j] !in online
  }

  lemma {:induction false} DesignatedIsFirst(preferred: seq<NodeId>, returning: NodeId, online: set<NodeId>, d: NodeId)
    ensures Designated(preferred, returning, online) == Some(d) <==> IsFirstEligible(preferred, returning, online, d)
    ensures Designated(preferred, returning, online).None?
            <==> forall a :: a in preferred ==> a == returning || a !in online
  {
    if preferred != [] {
      var rest := preferred[1..];
      DesignatedIsFirst(rest, returning, online, d);
      assert preferred == [preferred[0]] + rest;
      if preferred[0] == returning || preferred[0] !in online {
        if IsFirstEligible(rest, returning, online, d) {
          var i :| 0 <= i < |rest| && rest[i] == d && forall j :: 0 <= j < i ==>
              rest[j] == returning || rest[j] !in online;
          assert preferred[i + 1] == d;
        }
        if IsFirstEligible(preferred, returning, online, d) {
          var i :| 0 <= i < |preferred| && preferred[i] == d && forall j :: 0 <= j < i ==>
              preferred[j] == returning || preferred[j] !in online;
          assert rest[i - 1] == d;
          assert forall j :: 0 <= j < i - 1 ==> rest[j] == preferred[j + 1];
        }
      } else {
        assert preferred[0] == d ==> IsFirstEligible(preferred, returning, online, d);
      }
    }
  }

  // With a common ring and online snapshot, the nodes that push a key are: the designated sender if it holds the key,
  // and no one else. It is a preferred node; there is none only if no preferred node but the returner is online.
  lemma OneSender(stores: map<NodeId, Db>, ring: Ring, n: nat, returning: NodeId, online: set<NodeId>, k: Key)
    ensures var d := Designated(PreferenceList(ring, n, k), returning, online);
            && (set a | a in stores && k in PushedKeys(stores[a], ring, n, a, returning, online))
               == (if d.Some? && d.value in stores && k in stores[d.value] then {d.value} else {})
            && (d.Some? ==> d.value in PreferenceList(ring, n, k) && d.value in online && d.value != returning)
            && (d.None? <==> forall a :: a in PreferenceList(ring, n, k) ==> a == returning || a !in online)
  {
    var d := Designated(PreferenceList(ring, n, k), returning, online);
    DesignatedIsFirst(PreferenceList(ring, n, k), returning, online, if d.Some? then d.value else []);
  }

  // Nothing checks that the returning node is itself preferred. It is pushed only keys it owns, whoever is online and
  // whatever is stored, if and only if it is on every preference list.
  lemma OnlyOwnedKeysPushedIff(ring: Ring, n: nat, returning: NodeId)
    ensures (forall db, self, online, k | k in PushedKeys(db, ring, n, self, returning, online) ::
            returning in PreferenceList(ring, n, k))
            <==> forall k :: PreferenceList(ring, n, k) == [] || returning in PreferenceList(ring, n, k)
  {
    forall k | PreferenceList(ring, n, k) != [] && returning !in PreferenceList(ring, n, k)
      ensures exists db, self, online :: k in PushedKeys(db, ring, n, self, returning, online)
    {
      var self := PreferenceList(ring, n, k)[0];
      assert k in PushedKeys(map[k := Versioned(0, [])], ring, n, self, returning, {self});
    }
  }

  // --- recovery of a wiped node ---

  // What the other nodes send a returning node. A scan reads a snapshot: `stores` holds what each node's scan saw, at
  // whatever moment that was.
  ghost predicate Sent(stores: map<NodeId, Db>, ring: Ring, n: nat, returning: NodeId, online: set<NodeId>, w: Write) {
    exists a :: a in stores && w.key in PushedKeys(stores[a], ring, n, a, returning, online)
        && stores[a][w.key] == w.value
  }

  // The designated sender's entry for a key.
  function SendersEntry(stores: map<NodeId, Db>, ring: Ring, n: nat, returning: NodeId, online: set<NodeId>,
                        k: Key): Option<Versioned>
  {
    match Designated(PreferenceList(ring, n, k), returning, online)
    case None => None
    case Some(d) => if d in stores then Lookup(stores[d], k) else None
  }

  lemma SentIsSendersEntry(stores: map<NodeId, Db>, ring: Ring, n: nat, returning: NodeId,
                           online: set<NodeId>, w: Write)
    ensures Sent(stores, ring, n, returning, online, w)
            <==> SendersEntry(stores, ring, n, returning, online, w.key) == Some(w.value)
  {
    var d := Designated(PreferenceList(ring, n, w.key), returning, online);
    if d.Some? && d.value in stores && w.key in stores[d.value] && stores[d.value][w.key] == w.value {
      assert w.key in PushedKeys(stores[d.value], ring, n, d.value, returning, online);
    }
  }

  // The versions of a key that reach the returning node.
  ghost predicate Offered(stores: map<NodeId, Db>, ring: Ring, n: nat, returning: NodeId, online: set<NodeId>,
                          hints: set<Write>, k: Key, v: Versioned)
  {
    SendersEntry(stores, ring, n, returning, online, k) == Some(v) || Write(k, v) in hints
  }

  // Whatever arrives at a wiped node, in any order and more than once: each key ends with the newest of its versions.
  lemma NewestOfArrived(arrived: seq<Write>, k: Key)
    requires TimestampsDetermine(iset w | w in arrived)
    ensures var r := Lookup(ApplyAll(map[], arrived), k);
            && (forall v :: r == Some(v) <==>
                  Write(k, v) in arrived && forall u :: Write(k, u) in arrived ==> u.timestamp <= v.timestamp)
            && (r.None? <==> forall v :: Write(k, v) !in arrived)
  {
    var vs := ForKey(arrived, k);
    ApplyAllPerKey(map[], arrived, k);
    ForKeyMembers(arrived, k);
    if vs == [] {
      forall v ensures Write(k, v) !in arrived {
        assert v !in vs;
      }
    } else {
      GreatestOfMerge(vs);
      assert vs[0] in vs;
      var m := MergeAll(None, vs).value;
      forall v | v in vs && v.timestamp >= m.timestamp ensures v == m {
        assert Write(k, v) in arrived && Write(k, m) in arrived;
      }
    }
  }

  // Pushes and hint deliveries may arrive in any order and more than once: a wiped node ends, key by key, with the
  // newest of its designated sender's entry and its hints.
  lemma WipeRecovery(stores: map<NodeId, Db>, ring: Ring, n: nat, returning: NodeId, online: set<NodeId>,
                     hints: set<Write>, arrived: seq<Write>, k: Key)
    requires forall w :: w in arrived <==> Sent(stores, ring, n, returning, online, w) || w in hints
    requires TimestampsDetermine(iset w | w in arrived)
    ensures var r := Lookup(ApplyAll(map[], arrived), k);
            && (forall v :: r == Some(v) <==>
                  && Offered(stores, ring, n, returning, online, hints, k, v)
                  && forall u :: Offered(stores, ring, n, returning, online, hints, k, u) ==>
                       u.timestamp <= v.timestamp)
            && (r.None? <==> forall v :: !Offered(stores, ring, n, returning, online, hints, k, v))
  {
    NewestOfArrived(arrived, k);
    forall v ensures Write(k, v) in arrived <==> Offered(stores, ring, n, returning, online, hints, k, v) {
      SentIsSendersEntry(stores, ring, n, returning, online, Write(k, v));
    }
  }

  // Without outstanding hints it ends with exactly the designated sender's entry ...
  lemma RecoveredEntry(stores: map<NodeId, Db>, ring: Ring, n: nat, returning: NodeId, online: set<NodeId>,
                       arrived: seq<Write>, k: Key)
    requires forall w :: w in arrived <==> Sent(stores, ring, n, returning, online, w)
    ensures Lookup(ApplyAll(map[], arrived), k) == SendersEntry(stores, ring, n, returning, online, k)
  {
    forall a, b | a in arrived && b in arrived && a.key == b.key ensures a == b {
      SentIsSendersEntry(stores, ring, n, returning, online, a);
      SentIsSendersEntry(stores, ring, n, returning, online, b);
    }
    WipeRecovery(stores, ring, n, returning, online, {}, arrived, k);
    var e := SendersEntry(stores, ring, n, returning, online, k);
    assert forall v :: Offered(stores, ring, n, returning, online, {}, k, v) <==> e == Some(v);
  }

  // A key of the returning node on which the other preferred nodes agree with what it held, one of them online.
  ghost predicate AgreedBefore(was: Db, stores: map<NodeId, Db>, ring: Ring, n: nat, returning: NodeId,
                               online: set<NodeId>, k: Key)
  {
    && returning in PreferenceList(ring, n, k)
    && (forall a :: a in PreferenceList(ring, n, k) && a != returning ==>
         a in stores && Lookup(stores[a], k) == Lookup(was, k))
    && exists a :: a in PreferenceList(ring, n, k) && a != returning && a in online
  }

  // ... so if the preferred replicas agreed with it before the wipe, and another preferred node of each of its keys is
  // online, it regains exactly its old entries for the keys it owns.
  lemma RegainsOldEntries(was: Db, stores: map<NodeId, Db>, ring: Ring, n: nat, returning: NodeId, online: set<NodeId>,
                          arrived: seq<Write>, k: Key)
    requires forall w :: w in arrived <==> Sent(stores, ring, n, returning, online, w)
    requires AgreedBefore(was, stores, ring, n, returning, online, k)
    ensures Lookup(ApplyAll(map[], arrived), k) == Lookup(was, k)
  {
    RecoveredEntry(stores, ring, n, returning, online, arrived, k);
    OneSender(stores, ring, n, returning, online, k);
  }

  // --- abort and respawn ---

  // Each entry of the first store is in the second, unchanged or strictly newer.
  ghost predicate Dominated(first: Db, second: Db, keys: set<Key>) {
    forall k :: k in first && k in keys ==>
        k in second && (first[k].timestamp < second[k].timestamp || first[k] == second[k])
  }

  // Versioned writes only ever lead to a store that dominates the one before.
  lemma {:induction false} WritesDominate(db: Db, ws: seq<Write>, keys: set<Key>)
    ensures Dominated(db, ApplyAll(db, ws), keys)
    decreases |ws|
  {
    if ws != [] {
      WritesDominate(Apply(db, ws[0]), ws[1..], keys);
    }
  }

  // What the two reconciliations of an abort and respawn push. Each takes its own snapshot of who is online.
  datatype Respawn = Respawn(ring: Ring, n: nat, self: NodeId, returning: NodeId,
                             first: Db, online: set<NodeId>, second: Db, online': set<NodeId>) {
    function Part(): set<Key> {
      PushedKeys(first, ring, n, self, returning, online)
    }

    function Full(): set<Key> {
      PushedKeys(second, ring, n, self, returning, online')
    }

    // The later scan dominates the first on what the first would push, and this node still pushes all of it.
    ghost predicate IsCovered() {
      Dominated(first, second, Part()) && Part() <= Full()
    }
  }

  // With one snapshot for both, the designated sender is the same, so that domination is enough.
  lemma SameSnapshotCovered(r: Respawn)
    requires r.online == r.online'
    ensures r.IsCovered() <==> Dominated(r.first, r.second, r.Part())
  {
  }

  // A reconciliation cut short after any of its pushes, followed by a full one over a later scan, leaves the returning
  // node as the full one alone: for every state of that node and every cut, if and only if the later one covers the
  // first.
  lemma AbortThenRespawnIff(r: Respawn)
    ensures (forall target: Db, pushed: set<Key> | pushed <= r.Part() ::
               MergeKeys(MergeKeys(target, r.first, pushed), r.second, r.Full())
               == MergeKeys(target, r.second, r.Full()))
            <==> r.IsCovered()
  {
    if r.IsCovered() {
      forall target: Db, pushed: set<Key> | pushed <= r.Part()
        ensures MergeKeys(MergeKeys(target, r.first, pushed), r.second, r.Full())
                == MergeKeys(target, r.second, r.Full())
      {
        CutShort(target, r.first, r.second, pushed, r.Full());
      }
    } else {
      var k := Uncovered(r);
      EarlyPushSeen(map[], r.first, r.second, r.Full(), k);
      assert {k} <= r.Part();
    }
  }

  // A key of the first reconciliation that the second does not make up for.
  ghost predicate IsUncovered(first: Db, second: Db, full: set<Key>, k: Key) {
    && k in first
    && !(k in full && k in second && (first[k].timestamp < second[k].timestamp || first[k] == second[k]))
  }

  lemma Uncovered(r: Respawn) returns (k: Key)
    requires !r.IsCovered()
    ensures k in r.Part() && IsUncovered(r.first, r.second, r.Full(), k)
  {
    if Dominated(r.first, r.second, r.Part()) {
      k :| k in r.Part() && k !in r.Full();
    } else {
      k :| k in r.first && k in r.Part()
           && !(k in r.second && (r.first[k].timestamp < r.second[k].timestamp || r.first[k] == r.second[k]));
    }
  }

  lemma EarlyPushSeen(target: Db, first: Db, second: Db, full: set<Key>, k: Key)
    requires IsUncovered(first, second, full, k) && k !in target
    ensures MergeKeys(MergeKeys(target, first, {k}), second, full) != MergeKeys(target, second, full)
  {
    MergeKeysAt(target, first, {k}, k);
    MergeKeysAt(MergeKeys(target, first, {k}), second, full, k);
    MergeKeysAt(target, second, full, k);
  }

  lemma CutShort(target: Db, first: Db, second: Db, pushed: set<Key>, full: set<Key>)
    requires Dominated(first, second, pushed)
    requires forall k :: k in pushed ==> k in first && k in full
    ensures MergeKeys(MergeKeys(target, first, pushed), second, full) == MergeKeys(target, second, full)
  {
    var a, b := MergeKeys(MergeKeys(target, first, pushed), second, full), MergeKeys(target, second, full);
    forall k ensures Lookup(a, k) == Lookup(b, k) {
      MergeKeysAt(target, first, pushed, k);
      MergeKeysAt(MergeKeys(target, first, pushed), second, full, k);
      MergeKeysAt(target, second, full, k);
    }
    SameEntries(a, b);
  }

  // Writes that arrive when the pushes of a reconciliation cut short and those of the full one after it are mixed: all
  // of the full one's, any of the other's, in any order and number. An aborted task's last request may land this late.
  ghost predicate Mixed(ws: seq<Write>, r: Respawn) {
    && (forall w :: w in ws ==>
          || (w.key in r.Part() && Lookup(r.first, w.key) == Some(w.value))
          || (w.key in r.Full() && Lookup(r.second, w.key) == Some(w.value)))
    && (forall k :: k in r.Full() && k in r.second ==> Write(k, r.second[k]) in ws)
  }

  lemma MixedAt(ws: seq<Write>, r: Respawn, k: Key)
    requires Mixed(ws, r)
    ensures forall v :: v in ForKey(ws, k) ==>
              || (k in r.Part() && Lookup(r.first, k) == Some(v))
              || (k in r.Full() && Lookup(r.second, k) == Some(v))
    ensures k in r.Full() && k in r.second ==> r.second[k] in ForKey(ws, k)
  {
    ForKeyMembers(ws, k);
    forall v | v in ForKey(ws, k)
      ensures || (k in r.Part() && Lookup(r.first, k) == Some(v))
              || (k in r.Full() && Lookup(r.second, k) == Some(v))
    {
      assert Write(k, v) in ws;
    }
  }

  lemma MixedInside(target: Db, ws: seq<Write>, r: Respawn, k: Key)
    requires Mixed(ws, r) && Dominated(r.first, r.second, r.Part()) && k in r.Full()
    ensures Lookup(ApplyAll(target, ws), k) == Some(Merge(Lookup(target, k), r.second[k]))
  {
    ApplyAllPerKey(target, ws, k);
    MixedAt(ws, r, k);
    NewestAlone(Lookup(target, k), ForKey(ws, k), r.second[k]);
  }

  lemma MixedOutside(target: Db, ws: seq<Write>, r: Respawn, k: Key)
    requires Mixed(ws, r) && k !in r.Full()
    ensures || Lookup(ApplyAll(target, ws), k) == Lookup(target, k)
            || (k in r.Part() && Lookup(ApplyAll(target, ws), k) == Some(Merge(Lookup(target, k), r.first[k])))
  {
    ApplyAllPerKey(target, ws, k);
    MixedAt(ws, r, k);
    HeadIsIn(ForKey(ws, k));
    if ForKey(ws, k) != [] {
      NewestAlone(Lookup(target, k), ForKey(ws, k), r.first[k]);
    }
  }

  // Key by key: a key that the full reconciliation pushes ends as that alone would leave it; any other key is as it was
  // or has received the first one's entry for it.
  lemma MixedKeyByKey(target: Db, ws: seq<Write>, r: Respawn, k: Key)
    requires Mixed(ws, r) && Dominated(r.first, r.second, r.Part())
    ensures k in r.Full() ==> Lookup(ApplyAll(target, ws), k) == Lookup(MergeKeys(target, r.second, r.Full()), k)
    ensures k !in r.Full() ==>
              || Lookup(ApplyAll(target, ws), k) == Lookup(target, k)
              || (k in r.Part() && Lookup(ApplyAll(target, ws), k) == Some(Merge(Lookup(target, k), r.first[k])))
  {
    if k in r.Full() {
      MixedInside(target, ws, r, k);
      MergeKeysAt(target, r.second, r.Full(), k);
    } else {
      MixedOutside(target, ws, r, k);
    }
  }

  lemma EarlyPushListed(first: Db, second: Db, full: set<Key>, k: Key) returns (ws: seq<Write>)
    requires IsUncovered(first, second, full, k)
    ensures forall w ::
              w in ws <==> w == Write(k, first[k]) || (w.key in full && Lookup(second, w.key) == Some(w.value))
    ensures ApplyAll(map[], ws) != MergeKeys(map[], second, full)
  {
    var rest := EntriesListed(second, full);
    ws := [Write(k, first[k])] + rest;
    var pushed := Apply(map[], Write(k, first[k]));
    MergedInAnyOrder(pushed, second, full, rest);
    assert ws[1..] == rest && ApplyAll(map[], ws) == ApplyAll(pushed, rest);
    EarlyPushIsMerge(first, k);
    EarlyPushSeen(map[], first, second, full, k);
  }

  lemma EarlyPushIsMerge(first: Db, k: Key)
    requires k in first
    ensures Apply(map[], Write(k, first[k])) == MergeKeys(map[], first, {k})
  {
  }

  lemma EarlyPushStands(r: Respawn, k: Key) returns (ws: seq<Write>)
    requires k in r.Part() && IsUncovered(r.first, r.second, r.Full(), k)
    ensures Mixed(ws, r) && ApplyAll(map[], ws) != MergeKeys(map[], r.second, r.Full())
  {
    ws := EarlyPushListed(r.first, r.second, r.Full(), k);
    forall k' | k' in r.Full() && k' in r.second ensures Write(k', r.second[k']) in ws {
    }
  }

  // The same holds when they are mixed: in every such mix the returning node ends as the full reconciliation alone
  // would leave it, whatever it held, if and only if the later one covers the first.
  lemma LatePushesIff(r: Respawn)
    ensures (forall target: Db, ws: seq<Write> | Mixed(ws, r) ::
               ApplyAll(target, ws) == MergeKeys(target, r.second, r.Full()))
            <==> r.IsCovered()
  {
    if r.IsCovered() {
      forall target: Db, ws: seq<Write> | Mixed(ws, r)
        ensures ApplyAll(target, ws) == MergeKeys(target, r.second, r.Full())
      {
        var a, b := ApplyAll(target, ws), MergeKeys(target, r.second, r.Full());
        forall k ensures Lookup(a, k) == Lookup(b, k) {
          MixedLeavesFullAt(target, ws, r, k);
        }
        SameEntries(a, b);
      }
    } else {
      var k := Uncovered(r);
      var ws := EarlyPushStands(r, k);
    }
  }

  lemma MixedLeavesFullAt(target: Db, ws: seq<Write>, r: Respawn, k: Key)
    requires Mixed(ws, r) && r.IsCovered()
    ensures Lookup(ApplyAll(target, ws), k) == Lookup(MergeKeys(target, r.second, r.Full()), k)
  {
    MixedKeyByKey(target, ws, r, k);
    if k !in r.Full() {
      ApplyAllPerKey(target, ws, k);
      MixedAt(ws, r, k);
      HeadIsIn(ForKey(ws, k));
      MergeKeysAt(target, r.second, r.Full(), k);
    }
  }

  // So an abort never does harm, even if pushes of the aborted task land among or after those of its successor: between
  // two scans the local store changes by versioned writes alone. Every key that the successor pushes ends as if there
  // had been no aborted task, and all keys do if both found the same nodes online.
  lemma AbortIsHarmless(r: Respawn, between: seq<Write>, target: Db, ws: seq<Write>)
    requires r.second == ApplyAll(r.first, between) && Mixed(ws, r)
    ensures forall k :: k in r.Full() ==>
              Lookup(ApplyAll(target, ws), k) == Lookup(MergeKeys(target, r.second, r.Full()), k)
    ensures r.online == r.online' ==> ApplyAll(target, ws) == MergeKeys(target, r.second, r.Full())
  {
    WritesDominate(r.first, between, r.Part());
    forall k | k in r.Full()
      ensures Lookup(ApplyAll(target, ws), k) == Lookup(MergeKeys(target, r.second, r.Full()), k)
    {
      MixedKeyByKey(target, ws, r, k);
    }
    if r.online == r.online' {
      SameSnapshotCovered(r);
      LatePushesIff(r);
    }
  }
}
