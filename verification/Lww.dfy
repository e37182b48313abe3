// Last-write-wins: the one operation through which direct writes, hint deliveries, read repairs and reconciliation
// pushes change a replica.
module Lww {
  import opened Types

  // What a key holds after a versioned write reaches it. An equal timestamp keeps what is there.
  function Merge(current: Option<Versioned>, incoming: Versioned): Versioned {
    if current.Some? && current.value.timestamp >= incoming.timestamp then current.value else incoming
  }

  function MergeAll(current: Option<Versioned>, writes: seq<Versioned>): Option<Versioned>
    decreases |writes|
  {
    if writes == [] then current else MergeAll(Some(Merge(current, writes[0])), writes[1..])
  }

  datatype Write = Write(key: Key, value: Versioned)

  function Apply(db: Db, w: Write): Db {
    db[w.key := Merge(Lookup(db, w.key), w.value)]
  }

  // A write replaces a missing or strictly older entry of its key and touches no other.
  lemma ApplyAt(db: Db, w: Write, k: Key)
    ensures Lookup(Apply(db, w), k)
            == if k == w.key && (k !in db || db[k].timestamp < w.value.timestamp) then Some(w.value) else Lookup(db, k)
  {
  }

  lemma ApplyCovers(db: Db, w: Write)
    ensures AtLeast(Lookup(Apply(db, w), w.key), w.value.timestamp)
  {
  }

  function ApplyAll(db: Db, ws: seq<Write>): Db
    decreases |ws|
  {
    if ws == [] then db else ApplyAll(Apply(db, ws[0]), ws[1..])
  }

  function ForKey(ws: seq<Write>, key: Key): seq<Versioned> {
    if ws == [] then [] else
      (if ws[0].key == key then [ws[0].value] else []) + ForKey(ws[1..], key)
  }

  function AsSeq(o: Option<Versioned>): seq<Versioned> {
    match o
    case None => []
    case Some(v) => [v]
  }

  // A replica holds at least timestamp ts.
  predicate AtLeast(o: Option<Versioned>, ts: nat) {
    o.Some? && o.value.timestamp >= ts
  }

  ghost predicate Greatest(all: seq<Versioned>, v: Versioned) {
    v in all && forall u :: u in all ==> u.timestamp <= v.timestamp
  }

  // v is the first of the entries with the greatest timestamp.
  ghost predicate FirstGreatest(all: seq<Versioned>, v: Versioned) {
    exists i :: 0 <= i < |all| && all[i] == v
                && (forall j :: 0 <= j < |all| ==> all[j].timestamp <= v.timestamp)
                && (forall j :: 0 <= j < i ==> all[j].timestamp < v.timestamp)
  }

  ghost predicate SameElements(a: seq<Versioned>, b: seq<Versioned>) {
    forall v :: v in a <==> v in b
  }

  // Among the entries with the greatest timestamp there is only one value.
  ghost predicate UniqueGreatest(all: seq<Versioned>) {
    forall u, v :: Greatest(all, u) && Greatest(all, v) ==> u == v
  }

  lemma FirstGreatestIsUnique(all: seq<Versioned>, u: Versioned, v: Versioned)
    requires FirstGreatest(all, u) && FirstGreatest(all, v)
    ensures u == v
  {
  }

  // Merging two entries into one does not change which is the first of the greatest.
  lemma MergeHead(a: Versioned, b: Versioned, rest: seq<Versioned>, v: Versioned)
    requires FirstGreatest([Merge(Some(a), b)] + rest, v)
    ensures FirstGreatest([a, b] + rest, v)
  {
    var m := Merge(Some(a), b);
    var sub, all := [m] + rest, [a, b] + rest;
    var i :| 0 <= i < |sub| && sub[i] == v
             && (forall j :: 0 <= j < |sub| ==> sub[j].timestamp <= v.timestamp)
             && (forall j :: 0 <= j < i ==> sub[j].timestamp < v.timestamp);
    assert sub[0] == m && all[0] == a && all[1] == b;
    assert forall j :: 2 <= j < |all| ==> all[j] == sub[j - 1];
    if i > 0 {
      assert all[i + 1] == v;
    } else if m == a {
      assert all[0] == v;
    } else {
      assert all[1] == v;
    }
  }

  lemma {:induction false} MergeAllIsFirstGreatest(current: Option<Versioned>, writes: seq<Versioned>)
    ensures MergeAll(current, writes).None? <==> AsSeq(current) + writes == []
    ensures MergeAll(current, writes).Some? ==> FirstGreatest(AsSeq(current) + writes, MergeAll(current, writes).value)
    decreases |writes|
  {
    var all := AsSeq(current) + writes;
    if writes == [] {
      if current.Some? {
        assert all[0] == current.value;
      }
    } else {
      var m, rest := Merge(current, writes[0]), writes[1..];
      MergeAllIsFirstGreatest(Some(m), rest);
      assert MergeAll(current, writes) == MergeAll(Some(m), rest);
      if current.None? {
        assert all == [m] + rest;
      } else {
        MergeHead(current.value, writes[0], rest, MergeAll(Some(m), rest).value);
        assert all == [current.value, writes[0]] + rest;
      }
    }
  }

  // Exactly which entry a key ends with, ties included: the first-applied entry among those of greatest timestamp.
  lemma LastWriteWins(current: Option<Versioned>, writes: seq<Versioned>, v: Versioned)
    ensures MergeAll(current, writes) == Some(v) <==> FirstGreatest(AsSeq(current) + writes, v)
  {
    MergeAllIsFirstGreatest(current, writes);
    if FirstGreatest(AsSeq(current) + writes, v) {
      FirstGreatestIsUnique(AsSeq(current) + writes, v, MergeAll(current, writes).value);
    }
  }

  // A version newer than all others that arrive ends up merged with what was there, as if it had arrived alone.
  lemma NewestAlone(current: Option<Versioned>, writes: seq<Versioned>, v: Versioned)
    requires v in writes && forall u :: u in writes ==> u == v || u.timestamp < v.timestamp
    ensures MergeAll(current, writes) == Some(Merge(current, v))
  {
    var all := AsSeq(current) + writes;
    MergeAllIsFirstGreatest(current, writes);
    assert forall u :: u in all ==> u in writes || current == Some(u);
    assert v in all;
    if current.Some? && current.value.timestamp >= v.timestamp {
      assert FirstGreatest(all, current.value) by {
        assert all[0] == current.value;
        assert forall j :: 0 <= j < |all| ==> all[j] in all;
      }
      FirstGreatestIsUnique(all, current.value, MergeAll(current, writes).value);
    }
  }

  lemma {:induction false} MergeAllAppend(current: Option<Versioned>, writes: seq<Versioned>, v: Versioned)
    ensures MergeAll(current, writes + [v]) == Some(Merge(MergeAll(current, writes), v))
    decreases |writes|
  {
    if writes != [] {
      MergeAllAppend(Some(Merge(current, writes[0])), writes[1..], v);
      assert (writes + [v])[1..] == writes[1..] + [v];
    }
  }

  lemma {:induction false} ApplyAllAppend(db: Db, a: seq<Write>, b: seq<Write>)
    ensures ApplyAll(db, a + b) == ApplyAll(ApplyAll(db, a), b)
    decreases |a|
  {
    if a == [] {
      assert a + b == b;
    } else {
      ApplyAllAppend(Apply(db, a[0]), a[1..], b);
      assert (a + b)[1..] == a[1..] + b;
    }
  }

  lemma GreatestOfMerge(writes: seq<Versioned>)
    requires writes != []
    ensures MergeAll(None, writes).Some? && Greatest(writes, MergeAll(None, writes).value)
  {
    MergeAllIsFirstGreatest(None, writes);
    assert AsSeq(None) + writes == writes;
  }

  lemma SameElementsEmpty(a: seq<Versioned>, b: seq<Versioned>)
    requires SameElements(a, b)
    ensures a == [] <==> b == []
  {
    if a != [] {
      assert a[0] in b;
    }
    if b != [] {
      assert b[0] in a;
    }
  }

  // Any order and any repetition of the same writes end in the same entry ...
  lemma ReorderedMerge(writes: seq<Versioned>, other: seq<Versioned>)
    requires UniqueGreatest(writes) && SameElements(writes, other)
    ensures MergeAll(None, other) == MergeAll(None, writes)
  {
    SameElementsEmpty(writes, other);
    if writes != [] {
      GreatestOfMerge(writes);
      GreatestOfMerge(other);
      assert Greatest(writes, MergeAll(None, other).value);
    }
  }

  // ... if and only if the entries of greatest timestamp are all one value.
  lemma OrderIndependent(writes: seq<Versioned>)
    ensures (forall other | SameElements(writes, other) :: MergeAll(None, other) == MergeAll(None, writes))
            <==> UniqueGreatest(writes)
  {
    if UniqueGreatest(writes) {
      forall other | SameElements(writes, other) ensures MergeAll(None, other) == MergeAll(None, writes) {
        ReorderedMerge(writes, other);
      }
    } else {
      var u, v :| Greatest(writes, u) && Greatest(writes, v) && u != v;
      var other := OtherOutcome(writes, if MergeAll(None, writes) == Some(u) then v else u);
      assert MergeAll(None, other) != MergeAll(None, writes);
    }
  }

  // Each version of greatest timestamp is the outcome of some order.
  lemma OtherOutcome(writes: seq<Versioned>, u: Versioned) returns (other: seq<Versioned>)
    requires Greatest(writes, u)
    ensures SameElements(writes, other) && MergeAll(None, other) == Some(u)
  {
    other := [u] + writes;
    PutFirst(writes, u);
    RepeatFirst(writes, u);
  }

  lemma RepeatFirst(writes: seq<Versioned>, u: Versioned)
    requires u in writes
    ensures SameElements(writes, [u] + writes)
  {
  }

  lemma PutFirst(writes: seq<Versioned>, u: Versioned)
    requires Greatest(writes, u)
    ensures MergeAll(None, [u] + writes) == Some(u)
  {
    var all := [u] + writes;
    assert AsSeq(None) + all == all;
    assert FirstGreatest(all, u) by {
      assert all[0] == u;
      assert forall j :: 0 <= j < |all| ==> all[j] in all;
    }
    LastWriteWins(None, all, u);
  }

  // Keys do not interact.
  lemma {:induction false} ApplyAllPerKey(db: Db, ws: seq<Write>, key: Key)
    ensures Lookup(ApplyAll(db, ws), key) == MergeAll(Lookup(db, key), ForKey(ws, key))
    decreases |ws|
  {
    if ws != [] {
      var db' := Apply(db, ws[0]);
      ApplyAllPerKey(db', ws[1..], key);
      if ws[0].key == key {
        assert ForKey(ws, key)[1..] == ForKey(ws[1..], key);
        assert Lookup(db', key) == Some(Merge(Lookup(db, key), ForKey(ws, key)[0]));
      } else {
        assert ForKey(ws, key) == ForKey(ws[1..], key);
        assert Lookup(db', key) == Lookup(db, key);
      }
    }
  }

  lemma {:induction false} ForKeyMembers(ws: seq<Write>, key: Key)
    ensures forall v :: v in ForKey(ws, key) <==> Write(key, v) in ws
  {
    if ws != [] {
      ForKeyMembers(ws[1..], key);
      assert ws == [ws[0]] + ws[1..];
    }
  }

  // For every key, equal timestamps carry equal data.
  ghost predicate TimestampsDetermine(ws: iset<Write>) {
    forall a, b :: a in ws && b in ws && a.key == b.key && a.value.timestamp == b.value.timestamp ==> a == b
  }

  lemma MergeAllFromNone(current: Option<Versioned>, writes: seq<Versioned>)
    ensures MergeAll(current, writes) == MergeAll(None, AsSeq(current) + writes)
  {
    var all := AsSeq(current) + writes;
    if current.Some? {
      assert all[1..] == writes;
    } else {
      assert all == writes;
    }
  }

  function Entries(db: Db): iset<Write> {
    iset k | k in db :: Write(k, db[k])
  }

  // Convergence of a whole replica, from any state: any two sequences of the same writes, interleaved and repeated in
  // any way, leave the same store.
  lemma Convergence(db: Db, ws: seq<Write>, other: seq<Write>)
    requires forall w :: w in ws <==> w in other
    requires TimestampsDetermine(Entries(db) + iset w | w in ws)
    ensures ApplyAll(db, ws) == ApplyAll(db, other)
  {
    var a, b := ApplyAll(db, ws), ApplyAll(db, other);
    forall k ensures Lookup(a, k) == Lookup(b, k) {
      ConvergenceAt(db, ws, other, k);
    }
    forall k ensures k in a <==> k in b {
      assert Lookup(a, k) == Lookup(b, k);
    }
    forall k | k in a ensures a[k] == b[k] {
      assert Lookup(a, k) == Lookup(b, k);
    }
  }

  lemma ConvergenceAt(db: Db, ws: seq<Write>, other: seq<Write>, k: Key)
    requires forall w :: w in ws <==> w in other
    requires TimestampsDetermine(Entries(db) + iset w | w in ws)
    ensures Lookup(ApplyAll(db, ws), k) == Lookup(ApplyAll(db, other), k)
  {
    ApplyAllPerKey(db, ws, k);
    ApplyAllPerKey(db, other, k);
    ForKeyMembers(ws, k);
    ForKeyMembers(other, k);
    var mine, theirs := AsSeq(Lookup(db, k)) + ForKey(ws, k), AsSeq(Lookup(db, k)) + ForKey(other, k);
    forall v | v in mine ensures Write(k, v) in Entries(db) + iset w | w in ws {
      assert v in ForKey(ws, k) || Lookup(db, k) == Some(v);
    }
    assert UniqueGreatest(mine);
    assert SameElements(mine, theirs);
    ReorderedMerge(mine, theirs);
    MergeAllFromNone(Lookup(db, k), ForKey(ws, k));
    MergeAllFromNone(Lookup(db, k), ForKey(other, k));
  }
}
