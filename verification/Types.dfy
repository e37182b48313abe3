// Values shared by every part of the model.
module Types {
  newtype byte = x: int | 0 <= x < 256

  type Bytes = seq<byte>

  // Node ids are the UTF-8 bytes of the id string.
  type NodeId = Bytes

  type Key = Bytes

  datatype Option<+T> = None | Some(value: T)

  // Timestamps are u64 in the program. They are only ever compared, never computed with, so their width plays no part.
  datatype Versioned = Versioned(timestamp: nat, data: Bytes)

  // The contents of an ordered key-value database: one entry a key.
  type Db = map<Key, Versioned>

  function Lookup(db: Db, key: Key): Option<Versioned> {
    if key in db then Some(db[key]) else None
  }

  // The hash ring: all roster nodes in ring order for a key, or None where the lookup fails (a key that is not UTF-8).
  type Ring = Key -> Option<seq<NodeId>>

  ghost predicate Distinct<T>(s: seq<T>) {
    forall i, j :: 0 <= i < j < |s| ==> s[i] != s[j]
  }

  // What the ring library promises: each roster node occurs once, and the roster has at least n members.
  ghost predicate ValidRing(ring: Ring, n: nat) {
    forall k :: ring(k).Some? ==> Distinct(ring(k).value) && n <= |ring(k).value|
  }

  function PreferenceList(ring: Ring, n: nat, key: Key): seq<NodeId> {
    match ring(key)
    case None => []
    case Some(order) => if n <= |order| then order[..n] else order
  }

  function HintCandidates(ring: Ring, n: nat, key: Key): seq<NodeId> {
    match ring(key)
    case None => []
    case Some(order) => if n <= |order| then order[n..] else []
  }

  // The two lists of a key are its ring order, cut after n nodes.
  lemma ListsFollowRing(ring: Ring, n: nat, key: Key)
    requires ValidRing(ring, n)
    ensures ring(key).None? ==> PreferenceList(ring, n, key) == [] && HintCandidates(ring, n, key) == []
    ensures ring(key).Some? ==>
              && |PreferenceList(ring, n, key)| == n
              && PreferenceList(ring, n, key) + HintCandidates(ring, n, key) == ring(key).value
              && (forall i :: 0 <= i < n ==> PreferenceList(ring, n, key)[i] == ring(key).value[i])
              && (forall i :: 0 <= i < |ring(key).value| - n ==>
                    HintCandidates(ring, n, key)[i] == ring(key).value[n + i])
  {
  }

  ghost predicate Precedes<T(!new)>(whole: seq<T>, a: T, b: T) {
    exists x, y :: 0 <= x < y < |whole| && whole[x] == a && whole[y] == b
  }

  // Members of a sequence, in the order in which it has them.
  ghost predicate InOrder<T(!new)>(sub: seq<T>, whole: seq<T>) {
    forall i, j :: 0 <= i < j < |sub| ==> Precedes(whole, sub[i], sub[j])
  }

  lemma InOrderAppend<T(!new)>(sub: seq<T>, whole: seq<T>, a: T, taken: bool)
    requires InOrder(sub, whole) && forall b :: b in sub ==> b in whole
    ensures InOrder(sub + if taken then [a] else [], whole + [a])
  {
    var sub', whole' := sub + (if taken then [a] else []), whole + [a];
    forall i, j | 0 <= i < j < |sub'| ensures Precedes(whole', sub'[i], sub'[j]) {
      if j < |sub| {
        assert Precedes(whole, sub[i], sub[j]);
        var x, y :| 0 <= x < y < |whole| && whole[x] == sub[i] && whole[y] == sub[j];
        assert whole'[x] == sub'[i] && whole'[y] == sub'[j];
      } else {
        assert sub[i] in whole;
        var x :| 0 <= x < |whole| && whole[x] == sub[i];
        assert whole'[x] == sub'[i] && whole'[|whole|] == sub'[j];
      }
    }
  }

  lemma PrefixStep<T>(s: seq<T>, i: nat)
    requires i < |s|
    ensures s[..i + 1] == s[..i] + [s[i]]
  {
  }

  lemma PrependDistinct<T>(x: T, s: seq<T>)
    requires Distinct(s) && x !in s
    ensures Distinct([x] + s)
  {
    var r := [x] + s;
    forall i, j | 0 <= i < j < |r| ensures r[i] != r[j] {
      assert r[j] == s[j - 1] && r[j] in s;
      if i > 0 {
        assert r[i] == s[i - 1];
      }
    }
  }

  function Elements<T>(s: seq<T>): set<T> {
    set x | x in s
  }

  lemma {:induction false} DistinctCount<T>(s: seq<T>)
    requires Distinct(s)
    ensures |Elements(s)| == |s|
  {
    if s == [] {
      assert Elements(s) == {};
    } else {
      var t := s[..|s| - 1];
      DistinctCount(t);
      assert s == t + [s[|s| - 1]];
      assert Elements(s) == Elements(t) + {s[|s| - 1]};
      assert s[|s| - 1] !in t;
    }
  }

  lemma {:induction false} ElementsCount<T>(s: seq<T>)
    ensures |Elements(s)| <= |s|
  {
    if s == [] {
      assert Elements(s) == {};
    } else {
      var t := s[..|s| - 1];
      ElementsCount(t);
      assert s == t + [s[|s| - 1]];
      assert Elements(s) == Elements(t) + {s[|s| - 1]};
    }
  }

  lemma {:induction false} SubsetCount<T>(a: set<T>, b: set<T>)
    requires a <= b
    ensures |a| <= |b|
  {
    if a != {} {
      var x :| x in a;
      SubsetCount(a - {x}, b - {x});
    }
  }

  // Two subsets of a set that are together larger than it share a member.
  lemma {:induction false} Intersect<T>(a: set<T>, b: set<T>, whole: set<T>) returns (x: T)
    requires a <= whole && b <= whole
    requires |a| + |b| > |whole|
    ensures x in a && x in b
  {
    if a * b == {} {
      assert |a + b| == |a| + |b|;
      SubsetCount(a + b, whole);
      assert false;
    }
    x :| x in a * b;
  }
}
