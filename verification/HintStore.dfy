// Hints parked for offline nodes. A flat database whose keys are "target/key" byte strings stands for a map keyed by
// the pair (target, key).
module Hints {
  import opened Types
  import opened ByteOrder

  const SLASH: byte := 47

  type HintMap = map<(NodeId, Key), Versioned>

  predicate ValidTarget(target: NodeId) {
    SLASH !in target
  }

  function HintKey(target: NodeId, key: Key): Bytes {
    target + [SLASH] + key
  }

  // The inverse of HintKey: a compound key splits at its first slash.
  function Split(compound: Bytes): (r: (NodeId, Key))
    requires SLASH in compound
    ensures ValidTarget(r.0) && HintKey(r.0, r.1) == compound
  {
    if compound[0] == SLASH then ([], compound[1..]) else
      var (t, k) := Split(compound[1..]);
      ([compound[0]] + t, k)
  }

  // Every compound key in a hint database was built from a target id and a key.
  predicate Wellformed(db: Db) {
    forall c :: c in db ==> SLASH in c
  }

  // The map that a flat database stands for.
  ghost function Contents(db: Db): HintMap
    requires Wellformed(db)
  {
    var pairs := set c | c in db :: Split(c);
    map p | p in pairs :: db[HintKey(p.0, p.1)]
  }

  lemma {:induction false} SplitHintKey(target: NodeId, key: Key)
    requires ValidTarget(target)
    ensures SLASH in HintKey(target, key) && Split(HintKey(target, key)) == (target, key)
  {
    var c := HintKey(target, key);
    assert c[|target|] == SLASH;
    if target == [] {
      assert c[1..] == key;
    } else {
      SplitHintKey(target[1..], key);
      assert c[1..] == HintKey(target[1..], key);
      assert c[0] == target[0] && [target[0]] + target[1..] == target;
    }
  }

  lemma ContentsAt(db: Db, target: NodeId, key: Key)
    requires Wellformed(db)
    ensures (target, key) in Contents(db) <==> ValidTarget(target) && HintKey(target, key) in db
    ensures (target, key) in Contents(db) ==> Contents(db)[(target, key)] == db[HintKey(target, key)]
  {
    if ValidTarget(target) {
      SplitHintKey(target, key);
    }
  }

  // Two hints share a compound key only if they are the same hint.
  lemma HintKeyInjective(t: NodeId, k: Key, t': NodeId, k': Key)
    requires ValidTarget(t) && ValidTarget(t')
    ensures HintKey(t, k) == HintKey(t', k') <==> t == t' && k == k'
  {
    SplitHintKey(t, k);
    SplitHintKey(t', k');
  }

  // The hint that a target id and a key stand for once they are joined; the pair itself if the id has no slash.
  function Meant(target: NodeId, key: Key): (p: (NodeId, Key))
    ensures ValidTarget(p.0) && HintKey(p.0, p.1) == HintKey(target, key)
    ensures ValidTarget(target) ==> p == (target, key)
  {
    assert HintKey(target, key)[|target|] == SLASH;
    if ValidTarget(target) then (target, key) else Split(HintKey(target, key))
  }

  // What a scan for a target must yield: each of its hints once, in key order.
  ghost predicate IsScan(results: seq<(Key, Versioned)>, m: HintMap, target: NodeId) {
    && (forall i, j :: 0 <= i < j < |results| ==> Less(results[i].0, results[j].0))
    && (forall k, v :: (k, v) in results <==> (target, k) in m && m[(target, k)] == v)
  }

  lemma ContentsOfStore(db: Db, target: NodeId, key: Key, v: Versioned)
    requires Wellformed(db) && ValidTarget(target)
    ensures Wellformed(db[HintKey(target, key) := v])
    ensures Contents(db[HintKey(target, key) := v]) == Contents(db)[(target, key) := v]
  {
    SplitHintKey(target, key);
    var a, b := Contents(db[HintKey(target, key) := v]), Contents(db)[(target, key) := v];
    forall p: (NodeId, Key) ensures (p in a <==> p in b) && (p in a ==> a[p] == b[p]) {
      StoreAt(db, target, key, v, p.0, p.1);
    }
  }

  lemma StoreAt(db: Db, target: NodeId, key: Key, v: Versioned, t: NodeId, k: Key)
    requires Wellformed(db) && ValidTarget(target) && Wellformed(db[HintKey(target, key) := v])
    ensures var a, b := Contents(db[HintKey(target, key) := v]), Contents(db)[(target, key) := v];
            ((t, k) in a <==> (t, k) in b) && ((t, k) in a ==> a[(t, k)] == b[(t, k)])
  {
    ContentsAt(db, t, k);
    ContentsAt(db[HintKey(target, key) := v], t, k);
    if ValidTarget(t) {
      HintKeyInjective(t, k, target, key);
    }
  }

  // A delete removes the one hint that its compound key stands for: under an id with a slash another target's hint.
  lemma ContentsOfDelete(db: Db, target: NodeId, key: Key)
    requires Wellformed(db)
    ensures Wellformed(db - {HintKey(target, key)})
    ensures Contents(db - {HintKey(target, key)}) == Contents(db) - {Meant(target, key)}
  {
    var a, b := Contents(db - {HintKey(target, key)}), Contents(db) - {Meant(target, key)};
    forall p: (NodeId, Key) ensures (p in a <==> p in b) && (p in a ==> a[p] == b[p]) {
      DeleteAt(db, target, key, p.0, p.1);
    }
  }

  lemma DeleteAt(db: Db, target: NodeId, key: Key, t: NodeId, k: Key)
    requires Wellformed(db)
    ensures var a, b := Contents(db - {HintKey(target, key)}), Contents(db) - {Meant(target, key)};
            ((t, k) in a <==> (t, k) in b) && ((t, k) in a ==> a[(t, k)] == b[(t, k)])
  {
    ContentsAt(db, t, k);
    ContentsAt(db - {HintKey(target, key)}, t, k);
    if ValidTarget(t) {
      var (t', k') := Meant(target, key);
      HintKeyInjective(t, k, t', k');
    }
  }

  class HintStore {
    var db: Db

    ghost predicate Valid()
      reads this
    {
      Wellformed(db)
    }

    constructor ()
      ensures Valid() && db == map[] && Contents(db) == map[]
    {
      db := map[];
    }

    // Overwrites whatever hint is there, whichever timestamp it has. A target id with a slash is refused.
    method StoreHint(target: NodeId, key: Key, value: Bytes, timestamp: nat) returns (ok: bool)
      requires Valid()
      modifies this
      ensures Valid()
      // 47 is the byte of the slash.
      ensures ok <==> 47 !in target
      ensures ok ==> Contents(db) == old(Contents(db))[(target, key) := Versioned(timestamp, value)]
      ensures db == if ok then old(db)[target + [47] + key := Versioned(timestamp, value)] else old(db)
    {
      if SLASH in target {
        return false;
      }
      ContentsOfStore(db, target, key, Versioned(timestamp, value));
      db := db[HintKey(target, key) := Versioned(timestamp, value)];
      return true;
    }

    // Seeks to "target/" and stops at the first key that does not start with it.
    method HintsForNode(target: NodeId) returns (results: seq<(Key, Versioned)>)
      requires Valid()
      ensures forall i, j :: 0 <= i < j < |results| ==> Less(results[i].0, results[j].0)
      ensures forall k, v :: (k, v) in results <==> target + [47] + k in db && db[target + [47] + k] == v
      ensures ValidTarget(target) ==> IsScan(results, Contents(db), target)
    {
      var prefix := target + [SLASH];
      var iter := Sorted(set c | c in db && !Less(c, prefix));
      results := [];
      var i := 0;
      while i < |iter| && prefix <= iter[i]
        invariant 0 <= i <= |iter| == |iter|
        invariant |results| == i
        invariant forall j :: 0 <= j < i ==>
                  iter[j] in db && iter[j] == HintKey(target, results[j].0) && db[iter[j]] == results[j].1
      {
        assert iter[i] in iter;
        var k := iter[i][|prefix|..];
        assert iter[i] == prefix + k == HintKey(target, k);
        results := results + [(k, db[iter[i]])];
        i := i + 1;
      }
      forall j, l | 0 <= j < l < |results| ensures Less(results[j].0, results[l].0) {
        assert iter[j] == prefix + results[j].0 && iter[l] == prefix + results[l].0;
        LessUnderPrefix(prefix, results[j].0, results[l].0);
      }
      forall k, v ensures (k, v) in results <==> HintKey(target, k) in db && db[HintKey(target, k)] == v {
        if (k, v) in results {
          var j :| 0 <= j < |results| && results[j] == (k, v);
          assert iter[j] == HintKey(target, k);
        }
        if HintKey(target, k) in db && db[HintKey(target, k)] == v {
          ScanIsComplete(db, target, k, iter, i);
          var j :| 0 <= j < i && iter[j] == HintKey(target, k);
          assert HintKey(target, k)[|prefix|..] == k && HintKey(target, results[j].0)[|prefix|..] == results[j].0;
          assert results[j] == (k, v);
        }
      }
      forall k ensures (target, k) in Contents(db) <==> ValidTarget(target) && HintKey(target, k) in db {
        ContentsAt(db, target, k);
      }
      forall k | (target, k) in Contents(db) ensures Contents(db)[(target, k)] == db[HintKey(target, k)] {
        ContentsAt(db, target, k);
      }
    }

    method DeleteHint(target: NodeId, key: Key)
      requires Valid()
      modifies this
      ensures Valid()
      ensures db == old(db) - {target + [47] + key}
      ensures Contents(db) == old(Contents(db)) - {Meant(target, key)}
    {
      ContentsOfDelete(db, target, key);
      db := db - {HintKey(target, key)};
    }
  }

  // Why the early exit of the scan loses nothing: every key with the prefix lies before the point where it stops.
  lemma ScanIsComplete(db: Db, target: NodeId, key: Key, iter: seq<Bytes>, stop: nat)
    requires Ascending(iter) && forall c :: c in iter <==> c in db && !Less(c, target + [SLASH])
    requires stop <= |iter| && (stop < |iter| ==> !(target + [SLASH] <= iter[stop]))
    requires HintKey(target, key) in db
    ensures exists j :: 0 <= j < stop && iter[j] == HintKey(target, key)
  {
    var prefix := target + [SLASH];
    var c := HintKey(target, key);
    assert prefix <= c;
    PrefixIsLeast(prefix, c);
    var j :| 0 <= j < |iter| && iter[j] == c;
    if stop < j {
      assert iter[stop] in iter;
      PrefixRunIsContiguous(prefix, iter[stop], c);
    }
  }

  // --- any sequence of operations ---

  datatype Op = Store(target: NodeId, key: Key, value: Versioned) | Delete(target: NodeId, key: Key)

  function RunFlat(db: Db, ops: seq<Op>): Db
    decreases |ops|
  {
    if ops == [] then db else
      var db' := match ops[0]
                 case Store(t, k, v) => if ValidTarget(t) then db[HintKey(t, k) := v] else db
                 case Delete(t, k) => db - {HintKey(t, k)};
      RunFlat(db', ops[1..])
  }

  function RunMap(m: HintMap, ops: seq<Op>): HintMap
    decreases |ops|
  {
    if ops == [] then m else
      var m' := match ops[0]
                case Store(t, k, v) => if ValidTarget(t) then m[(t, k) := v] else m
                case Delete(t, k) => m - {Meant(t, k)};
      RunMap(m', ops[1..])
  }

  // The flat layout refines the map over every history.
  lemma {:induction false} FlatRefinesMap(db: Db, ops: seq<Op>)
    requires Wellformed(db)
    ensures Wellformed(RunFlat(db, ops)) && Contents(RunFlat(db, ops)) == RunMap(Contents(db), ops)
    decreases |ops|
  {
    if ops != [] {
      match ops[0] {
        case Store(t, k, v) =>
          if ValidTarget(t) {
            ContentsOfStore(db, t, k, v);
            FlatRefinesMap(db[HintKey(t, k) := v], ops[1..]);
          } else {
            FlatRefinesMap(db, ops[1..]);
          }
        case Delete(t, k) =>
          ContentsOfDelete(db, t, k);
          FlatRefinesMap(db - {HintKey(t, k)}, ops[1..]);
      }
    }
  }

  // Only the store refuses a target id with a slash. A scan under such an id runs over keys that belong to another
  // target: it is right on every database exactly when the id has no slash.
  lemma ScanExactIffNoSlash(target: NodeId)
    ensures ValidTarget(target) <==>
            forall db, k | Wellformed(db) && HintKey(target, k) in db :: (target, k) in Contents(db)
  {
    if ValidTarget(target) {
      forall db, k | Wellformed(db) && HintKey(target, k) in db ensures (target, k) in Contents(db) {
        ContentsAt(db, target, k);
      }
    } else {
      var c := HintKey(target, []);
      var db := map[c := Versioned(0, [])];
      assert c[|target|] == SLASH;
      ContentsAt(db, target, []);
      assert Wellformed(db) && c in db && (target, []) !in Contents(db);
    }
  }

  // A delete under such an id may remove another target's hint.
  lemma DeleteExactIffNoSlash(target: NodeId)
    ensures ValidTarget(target) <==>
            forall db, k | Wellformed(db) :: Contents(db - {HintKey(target, k)}) == Contents(db) - {(target, k)}
  {
    if ValidTarget(target) {
      forall db, k | Wellformed(db) ensures Contents(db - {HintKey(target, k)}) == Contents(db) - {(target, k)} {
        ContentsOfDelete(db, target, k);
      }
    } else {
      DeleteHitsAnotherTarget(target);
      var db :| Wellformed(db) && Contents(db - {HintKey(target, [])}) != Contents(db) - {(target, [])};
    }
  }

  lemma DeleteHitsAnotherTarget(target: NodeId)
    requires !ValidTarget(target)
    ensures exists db :: Wellformed(db) && Contents(db - {HintKey(target, [])}) != Contents(db) - {(target, [])}
  {
    var c := HintKey(target, []);
    var db := map[c := Versioned(0, [])];
    assert c[|target|] == SLASH;
    var (t, k) := Split(c);
    ContentsAt(db, t, k);
    ContentsAt(db - {c}, t, k);
    assert (t, k) in Contents(db) - {(target, [])} && (t, k) !in Contents(db - {c});
  }
}
