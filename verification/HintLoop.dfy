// Phase two of a put: one cursor walks the hint candidates across all failed targets, so each candidate is tried at
// most once.
module HintLoop {
  import opened Types

  // A target and the candidate asked to hold its hint.
  type Pair = (NodeId, NodeId)

  type Acceptance = (NodeId, NodeId) -> bool

  // Every hint write the loop sends, in order.
  function Attempts(targets: seq<NodeId>, candidates: seq<NodeId>, preferred: set<NodeId>,
                    accepts: Acceptance): seq<Pair>
    decreases |candidates|
  {
    if targets == [] || candidates == [] then []
    else if candidates[0] in preferred then Attempts(targets, candidates[1..], preferred, accepts)
    else
      var left := if accepts(targets[0], candidates[0]) then targets[1..] else targets;
      [(targets[0], candidates[0])] + Attempts(left, candidates[1..], preferred, accepts)
  }

  function Accepted(attempts: seq<Pair>, accepts: Acceptance): seq<Pair> {
    if attempts == [] then [] else
      (if accepts(attempts[0].0, attempts[0].1) then [attempts[0]] else []) + Accepted(attempts[1..], accepts)
  }

  // The hint writes that were acknowledged, in order.
  function Placements(targets: seq<NodeId>, candidates: seq<NodeId>, preferred: set<NodeId>,
                      accepts: Acceptance): seq<Pair>
  {
    Accepted(Attempts(targets, candidates, preferred, accepts), accepts)
  }

  // The candidates that would take a hint, where that depends on the candidate alone.
  function Willing(candidates: seq<NodeId>, preferred: set<NodeId>, willing: NodeId -> bool): seq<NodeId> {
    if candidates == [] then [] else
      (if candidates[0] !in preferred && willing(candidates[0]) then [candidates[0]] else [])
      + Willing(candidates[1..], preferred, willing)
  }

  function Min(a: nat, b: nat): nat {
    if a <= b then a else b
  }

  function Holders(pairs: seq<Pair>): seq<NodeId> {
    seq(|pairs|, i requires 0 <= i < |pairs| => pairs[i].1)
  }

  function Targets(pairs: seq<Pair>): seq<NodeId> {
    seq(|pairs|, i requires 0 <= i < |pairs| => pairs[i].0)
  }

  // A way to park hints: distinct failed targets on distinct candidates that would take them.
  ghost predicate IsAssignment(pairs: seq<Pair>, targets: seq<NodeId>, candidates: seq<NodeId>, preferred: set<NodeId>,
                               accepts: Acceptance)
  {
    && Distinct(Targets(pairs)) && Distinct(Holders(pairs))
    && forall i :: 0 <= i < |pairs| ==> pairs[i].0 in targets && pairs[i].1 in candidates && pairs[i].1 !in preferred
                                         && accepts(pairs[i].0, pairs[i].1)
  }

  ghost predicate Optimal(targets: seq<NodeId>, candidates: seq<NodeId>, preferred: set<NodeId>, accepts: Acceptance) {
    forall pairs :: IsAssignment(pairs, targets, candidates, preferred, accepts)
                    ==> |pairs| <= |Placements(targets, candidates, preferred, accepts)|
  }

  // Whether one of these hosts takes a hint does not depend on for which of these targets it is.
  ghost predicate IgnoresTarget(targets: set<NodeId>, hosts: set<NodeId>, preferred: set<NodeId>, accepts: Acceptance) {
    forall t, t', c :: t in targets && t' in targets && c in hosts && c !in preferred ==>
        accepts(t, c) == accepts(t', c)
  }

  // One turn of the loop.
  lemma PlacementsStep(targets: seq<NodeId>, candidates: seq<NodeId>, preferred: set<NodeId>, accepts: Acceptance)
    requires targets != [] && candidates != []
    ensures var t, c, rest := targets[0], candidates[0], candidates[1..];
            Placements(targets, candidates, preferred, accepts)
            == if c !in preferred && accepts(t, c) then [(t, c)] + Placements(targets[1..], rest, preferred, accepts)
               else Placements(targets, rest, preferred, accepts)
  {
    var t, c, rest := targets[0], candidates[0], candidates[1..];
    if c !in preferred {
      AcceptedStep((t, c), Attempts(if accepts(t, c) then targets[1..]
          else targets, rest, preferred, accepts), accepts);
    }
  }

  // The i-th failed target is hinted on the i-th willing candidate, until either runs out.
  lemma {:induction false} ClosedForm(targets: seq<NodeId>, candidates: seq<NodeId>, preferred: set<NodeId>,
                                      accepts: Acceptance, willing: NodeId -> bool)
    requires forall t, c :: t in targets && c in candidates && c !in preferred ==> accepts(t, c) == willing(c)
    ensures var p, ok := Placements(targets, candidates, preferred, accepts), Willing(candidates, preferred, willing);
            && |p| == Min(|targets|, |ok|)
            && forall i :: 0 <= i < |p| ==> p[i] == (targets[i], ok[i])
    decreases |candidates|
  {
    if targets != [] && candidates != [] {
      var t, c, rest := targets[0], candidates[0], candidates[1..];
      PlacementsStep(targets, candidates, preferred, accepts);
      assert t in targets && c in candidates;
      if c !in preferred && willing(c) {
        ClosedForm(targets[1..], rest, preferred, accepts, willing);
        assert Willing(candidates, preferred, willing) == [c] + Willing(rest, preferred, willing);
      } else {
        ClosedForm(targets, rest, preferred, accepts, willing);
        assert Willing(candidates, preferred, willing) == Willing(rest, preferred, willing);
      }
    }
  }

  lemma AcceptedStep(p: Pair, rest: seq<Pair>, accepts: Acceptance)
    ensures Accepted([p] + rest, accepts) == (if accepts(p.0, p.1) then [p] else []) + Accepted(rest, accepts)
  {
    assert ([p] + rest)[1..] == rest;
  }

  lemma {:induction false} AcceptedAppend(a: seq<Pair>, p: Pair, accepts: Acceptance)
    ensures Accepted(a + [p], accepts) == Accepted(a, accepts) + (if accepts(p.0, p.1) then [p] else [])
  {
    if a == [] {
      AcceptedStep(p, [], accepts);
    } else {
      AcceptedAppend(a[1..], p, accepts);
      AcceptedStep(a[0], a[1..], accepts);
      AcceptedStep(a[0], a[1..] + [p], accepts);
      assert a + [p] == [a[0]] + (a[1..] + [p]) && a == [a[0]] + a[1..];
    }
  }

  lemma {:induction false} WillingMembers(candidates: seq<NodeId>, preferred: set<NodeId>, willing: NodeId -> bool)
    ensures forall c ::
              c in Willing(candidates, preferred, willing) <==> c in candidates && c !in preferred && willing(c)
  {
    if candidates != [] {
      WillingMembers(candidates[1..], preferred, willing);
      assert candidates == [candidates[0]] + candidates[1..];
    }
  }

  // No other way to park the hints earns more acknowledgements ...
  lemma GreedyIsOptimal(targets: seq<NodeId>, candidates: seq<NodeId>, preferred: set<NodeId>, accepts: Acceptance)
    requires IgnoresTarget(Elements(targets), Elements(candidates), preferred, accepts)
    ensures Optimal(targets, candidates, preferred, accepts)
  {
    var willing := c => targets != [] && accepts(targets[0], c);
    ClosedForm(targets, candidates, preferred, accepts, willing);
    WillingMembers(candidates, preferred, willing);
    var ok := Willing(candidates, preferred, willing);
    forall pairs | IsAssignment(pairs, targets, candidates, preferred, accepts)
      ensures |pairs| <= Min(|targets|, |ok|)
    {
      DistinctWithin(Targets(pairs), targets);
      DistinctWithin(Holders(pairs), ok);
    }
  }

  lemma DistinctWithin(a: seq<NodeId>, b: seq<NodeId>)
    requires Distinct(a) && forall i :: 0 <= i < |a| ==> a[i] in b
    ensures |a| <= |b|
  {
    DistinctCount(a);
    ElementsCount(b);
    SubsetCount(Elements(a), Elements(b));
  }

  // ... for all lists of failed targets and of candidates drawn from given ids, if and only if acceptance among these
  // ids depends on the candidate alone.
  lemma OptimalIffTargetIgnored(ids: set<NodeId>, hosts: set<NodeId>, preferred: set<NodeId>, accepts: Acceptance)
    ensures (forall targets, candidates | Elements(targets) <= ids
            && Elements(candidates) <= hosts :: Optimal(targets, candidates, preferred, accepts))
            <==> IgnoresTarget(ids, hosts, preferred, accepts)
  {
    if IgnoresTarget(ids, hosts, preferred, accepts) {
      forall targets, candidates | Elements(targets) <= ids && Elements(candidates) <= hosts
        ensures Optimal(targets, candidates, preferred, accepts)
      {
        assert IgnoresTarget(Elements(targets), Elements(candidates), preferred, accepts);
        GreedyIsOptimal(targets, candidates, preferred, accepts);
      }
    } else {
      var t, t', c :| t in ids && t' in ids && c in hosts && c !in preferred && accepts(t, c) != accepts(t', c);
      if accepts(t, c) {
        GreedyLoses(t', t, c, preferred, accepts);
        assert Elements([t', t]) <= ids && Elements([c]) <= hosts;
      } else {
        GreedyLoses(t, t', c, preferred, accepts);
        assert Elements([t, t']) <= ids && Elements([c]) <= hosts;
      }
    }
  }

  // A target that the last candidate refuses uses it up, though a later target would have been accepted there.
  lemma GreedyLoses(refused: NodeId, taken: NodeId, c: NodeId, preferred: set<NodeId>, accepts: Acceptance)
    requires c !in preferred && !accepts(refused, c) && accepts(taken, c)
    ensures !Optimal([refused, taken], [c], preferred, accepts)
  {
    var targets := [refused, taken];
    assert Attempts(targets, [c], preferred, accepts) == [(refused, c)] + Attempts(targets, [], preferred, accepts);
    AcceptedStep((refused, c), [], accepts);
    assert Placements(targets, [c], preferred, accepts) == [];
    var pairs := [(taken, c)];
    assert IsAssignment(pairs, targets, [c], preferred, accepts);
  }

  lemma HoldersStep(p: Pair, rest: seq<Pair>)
    ensures Holders([p] + rest) == [p.1] + Holders(rest) && Targets([p] + rest) == [p.0] + Targets(rest)
    ensures forall c :: c in Holders(rest) <==> exists q :: q in rest && q.1 == c
  {
    forall q | q in rest ensures q.1 in Holders(rest) {
      var i :| 0 <= i < |rest| && rest[i] == q;
      assert Holders(rest)[i] == q.1;
    }
    forall c | c in Holders(rest) ensures exists q :: q in rest && q.1 == c {
      var i :| 0 <= i < |rest| && Holders(rest)[i] == c;
      assert rest[i] in rest;
    }
  }

  // Whatever the outcomes: only candidates outside the preference list are asked, each at most once, and only failed
  // targets are hinted.
  lemma {:induction false} AttemptsDistinct(targets: seq<NodeId>, candidates: seq<NodeId>, preferred: set<NodeId>,
                                            accepts: Acceptance)
    requires Distinct(candidates)
    ensures Distinct(Holders(Attempts(targets, candidates, preferred, accepts)))
    ensures forall p :: p in Attempts(targets, candidates, preferred, accepts)
                        ==> p.0 in targets && p.1 in candidates && p.1 !in preferred
    decreases |candidates|
  {
    if targets != [] && candidates != [] {
      var t, c, rest := targets[0], candidates[0], candidates[1..];
      if c in preferred {
        AttemptsDistinct(targets, rest, preferred, accepts);
      } else {
        var left := if accepts(t, c) then targets[1..] else targets;
        var tail := Attempts(left, rest, preferred, accepts);
        AttemptsDistinct(left, rest, preferred, accepts);
        HoldersStep((t, c), tail);
        assert c !in rest;
        PrependDistinct(c, Holders(tail));
      }
    }
  }

  // Exactly what is asked of whom, refusals included: the k-th candidate is asked for the first failed target that no
  // earlier one has accepted, until all targets are hinted or no candidate is left.
  lemma {:induction false} AttemptsExact(targets: seq<NodeId>, candidates: seq<NodeId>, preferred: set<NodeId>,
                                         accepts: Acceptance)
    requires forall c :: c in candidates ==> c !in preferred
    ensures var a := Attempts(targets, candidates, preferred, accepts);
            && |a| <= |candidates|
            && (forall k :: 0 <= k < |a| ==>
                  && |Accepted(a[..k], accepts)| < |targets|
                  && a[k] == (targets[|Accepted(a[..k], accepts)|], candidates[k]))
            && (|a| == |candidates| || |Accepted(a, accepts)| == |targets|)
    decreases |candidates|
  {
    if targets != [] && candidates != [] {
      var t, c, rest := targets[0], candidates[0], candidates[1..];
      var left := if accepts(t, c) then targets[1..] else targets;
      var tail, a := Attempts(left, rest, preferred, accepts), Attempts(targets, candidates, preferred, accepts);
      assert c in candidates;
      AttemptsExact(left, rest, preferred, accepts);
      AcceptedStep((t, c), tail, accepts);
      forall k | 0 <= k < |a|
        ensures |Accepted(a[..k], accepts)| < |targets| && a[k] == (targets[|Accepted(a[..k], accepts)|], candidates[k])
      {
        if k > 0 {
          assert a[..k] == [(t, c)] + tail[..k - 1];
          AcceptedStep((t, c), tail[..k - 1], accepts);
        }
      }
    }
  }

  // Accepted attempts go to distinct targets: the i-th acknowledgement is for the i-th failed target.
  lemma {:induction false} PlacementsInOrder(targets: seq<NodeId>, candidates: seq<NodeId>, preferred: set<NodeId>,
                                             accepts: Acceptance)
    ensures var p := Placements(targets, candidates, preferred, accepts);
            |p| <= |targets| && Targets(p) == targets[..|p|]
    decreases |candidates|
  {
    if targets != [] && candidates != [] {
      var t, c, rest := targets[0], candidates[0], candidates[1..];
      PlacementsStep(targets, candidates, preferred, accepts);
      if c !in preferred && accepts(t, c) {
        PlacementsInOrder(targets[1..], rest, preferred, accepts);
        HoldersStep((t, c), Placements(targets[1..], rest, preferred, accepts));
      } else {
        PlacementsInOrder(targets, rest, preferred, accepts);
      }
    }
  }

  lemma {:induction false} AcceptedMembers(a: seq<Pair>, accepts: Acceptance)
    ensures forall p :: p in Accepted(a, accepts) <==> p in a && accepts(p.0, p.1)
  {
    if a != [] {
      AcceptedMembers(a[1..], accepts);
      assert a == [a[0]] + a[1..];
    }
  }

  lemma {:induction false} AcceptedDistinct(a: seq<Pair>, accepts: Acceptance)
    requires Distinct(Holders(a))
    ensures Distinct(Holders(Accepted(a, accepts)))
  {
    if a != [] {
      var rest := a[1..];
      var tail := Accepted(rest, accepts);
      assert a == [a[0]] + rest;
      HoldersStep(a[0], rest);
      assert Holders(a)[1..] == Holders(rest);
      AcceptedDistinct(rest, accepts);
      AcceptedMembers(rest, accepts);
      HoldersStep(a[0], tail);
      if accepts(a[0].0, a[0].1) {
        assert Holders(a) == [a[0].1] + Holders(rest);
        forall i | 0 <= i < |tail| ensures Holders(tail)[i] != a[0].1 {
          assert tail[i] in rest;
          var j :| 0 <= j < |rest| && rest[j] == tail[i];
          assert Holders(a)[j + 1] == tail[i].1 && Holders(a)[0] == a[0].1;
        }
        PrependDistinct(a[0].1, Holders(tail));
      } else {
        assert Accepted(a, accepts) == tail;
      }
    }
  }
}
