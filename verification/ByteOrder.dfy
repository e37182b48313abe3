// The order in which the embedded database keeps its keys: byte strings compared lexicographically.
module ByteOrder {
  import opened Types

  predicate Less(a: Bytes, b: Bytes) {
    b != [] && (a == [] || a[0] < b[0] || (a[0] == b[0] && Less(a[1..], b[1..])))
  }

  ghost predicate Ascending(s: seq<Bytes>) {
    forall i, j :: 0 <= i < j < |s| ==> Less(s[i], s[j])
  }

  // The first byte in which two strings differ is at i, and is the smaller one in a.
  ghost predicate FirstSmallerAt(a: Bytes, b: Bytes, i: nat) {
    i < |a| && i < |b| && a[..i] == b[..i] && a[i] < b[i]
  }

  // The order is lexicographic: the first byte in which two strings differ decides, and a proper prefix comes first.
  lemma {:induction false} LessIsLexicographic(a: Bytes, b: Bytes)
    ensures Less(a, b) <==> a < b || exists i: nat :: FirstSmallerAt(a, b, i)
  {
    if a != [] && b != [] {
      LessIsLexicographic(a[1..], b[1..]);
      forall i: nat ensures FirstSmallerAt(a, b, i) <==>
                            if i == 0 then a[0] < b[0] else a[0] == b[0] && FirstSmallerAt(a[1..], b[1..], i - 1) {
        FirstSmallerBehindHead(a, b, i);
      }
      if i: nat :| FirstSmallerAt(a[1..], b[1..], i) {
        assert FirstSmallerAt(a, b, i + 1) <==> a[0] == b[0];
      }
      assert FirstSmallerAt(a, b, 0) <==> a[0] < b[0];
      assert a == [a[0]] + a[1..] && b == [b[0]] + b[1..];
      assert a < b <==> a[0] == b[0] && a[1..] < b[1..];
    }
  }

  lemma FirstSmallerBehindHead(a: Bytes, b: Bytes, i: nat)
    requires a != [] && b != []
    ensures FirstSmallerAt(a, b, i) <==>
            if i == 0 then a[0] < b[0] else a[0] == b[0] && FirstSmallerAt(a[1..], b[1..], i - 1)
  {
    if 0 < i < |a| && i < |b| {
      assert a[..i] == [a[0]] + a[1..][..i - 1] && b[..i] == [b[0]] + b[1..][..i - 1];
      assert a[..i][0] == a[0] && b[..i][0] == b[0] && a[..i][1..] == a[1..][..i - 1] && b[..i][1..] == b[1..][..i - 1];
    }
  }

  lemma {:induction false} LessIrreflexive(a: Bytes)
    ensures !Less(a, a)
  {
    if a != [] {
      LessIrreflexive(a[1..]);
    }
  }

  lemma {:induction false} LessTransitive(a: Bytes, b: Bytes, c: Bytes)
    requires Less(a, b) && Less(b, c)
    ensures Less(a, c)
  {
    if a != [] && a[0] == b[0] == c[0] {
      LessTransitive(a[1..], b[1..], c[1..]);
    }
  }

  lemma {:induction false} LessTotal(a: Bytes, b: Bytes)
    ensures a == b || Less(a, b) || Less(b, a)
  {
    if a != [] && b != [] && a[0] == b[0] {
      LessTotal(a[1..], b[1..]);
      assert a == [a[0]] + a[1..] && b == [b[0]] + b[1..];
    }
  }

  // Below a common prefix the order is the order of the rest.
  lemma {:induction false} LessUnderPrefix(p: Bytes, a: Bytes, b: Bytes)
    ensures Less(p + a, p + b) <==> Less(a, b)
  {
    if p == [] {
      assert p + a == a && p + b == b;
    } else {
      LessUnderPrefix(p[1..], a, b);
      assert (p + a)[1..] == p[1..] + a && (p + b)[1..] == p[1..] + b;
    }
  }

  // Nothing that starts with p comes before p.
  lemma {:induction false} PrefixIsLeast(p: Bytes, k: Bytes)
    requires p <= k
    ensures !Less(k, p)
  {
    if p != [] {
      PrefixIsLeast(p[1..], k[1..]);
    }
  }

  // The strings that start with p form one contiguous run that begins at p: once a string at or after p does not
  // start with p, no later string does.
  lemma {:induction false} PrefixRunIsContiguous(p: Bytes, a: Bytes, b: Bytes)
    requires !Less(a, p) && !(p <= a)
    requires Less(a, b)
    ensures !(p <= b)
  {
    if p <= b && p != [] && a != [] && a[0] == p[0] {
      assert a == [a[0]] + a[1..] && p == [p[0]] + p[1..];
      assert !(p[1..] <= a[1..]);
      PrefixRunIsContiguous(p[1..], a[1..], b[1..]);
    }
  }

  predicate IsLeast(s: set<Bytes>, m: Bytes) {
    m in s && forall x | x in s :: x == m || Less(m, x)
  }

  lemma {:induction false} LeastExists(s: set<Bytes>) returns (m: Bytes)
    requires s != {}
    ensures IsLeast(s, m)
  {
    m :| m in s;
    var rest := s - {m};
    assert s == {m} + rest;
    if rest != {} {
      var r := LeastExists(rest);
      LessTotal(m, r);
      var first := if Less(r, m) then r else m;
      forall x | x in s ensures x == first || Less(first, x) {
        if x != m {
          assert x in rest;
          if x != r && first == m {
            LessTransitive(m, r, x);
          }
        }
      }
      m := first;
    }
  }

  lemma LeastIsWellDefined(s: set<Bytes>)
    requires s != {}
    ensures exists m :: IsLeast(s, m)
    ensures forall m, n :: IsLeast(s, m) && IsLeast(s, n) ==> m == n
  {
    var m := LeastExists(s);
    forall m, n | IsLeast(s, m) && IsLeast(s, n) ensures m == n {
      if m != n {
        LessTransitive(m, n, m);
        LessIrreflexive(m);
      }
    }
  }

  function Least(s: set<Bytes>): (m: Bytes)
    requires s != {}
    ensures IsLeast(s, m)
  {
    LeastIsWellDefined(s);
    var m :| m in s && IsLeast(s, m);
    m
  }

  // The keys of a database in iteration order.
  function Sorted(s: set<Bytes>): (r: seq<Bytes>)
    ensures Ascending(r)
    ensures forall x :: x in r <==> x in s
  {
    if s == {} then [] else
      var m := Least(s);
      var rest := Sorted(s - {m});
      assert forall i :: 0 <= i < |rest| ==> rest[i] in s - {m} && Less(m, rest[i]);
      [m] + rest
  }
}
