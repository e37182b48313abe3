// Quorum reads and sloppy-quorum writes over the stores of the cluster.
module Coordinator {
  import opened Types
  import opened Lww
  import opened LocalStore
  import opened Hints
  import opened HintLoop

  // How one write request ends for its sender. A request that failed for the sender may still have been carried out.
  datatype Rpc = Acked | FailedApplied | FailedLost

  // How one parallel write task ends. The coordinator learns nothing from a panicked task, not even its node.
  datatype Join = Ended(rpc: Rpc) | Panicked(applied: bool)

  predicate Carried(rpc: Rpc) {
    rpc != FailedLost
  }

  predicate Lands(join: Join) {
    match join
    case Ended(rpc) => Carried(rpc)
    case Panicked(applied) => applied
  }

  type HintRpc = (NodeId, NodeId) -> Rpc

  // The hint writes that are acknowledged, and those that are carried out: a store refuses a target with a slash.
  function Accepts(rpc: HintRpc): Acceptance {
    (t, c) => rpc(t, c) == Acked && ValidTarget(t)
  }

  function Arrives(rpc: HintRpc): Acceptance {
    (t, c) => Carried(rpc(t, c)) && ValidTarget(t)
  }

  datatype PutResult = PutOk | PutQuorumFailed(acks: nat, required: nat) | PutRingError

  datatype GetResult = GetOk(winner: Option<Versioned>) | GetQuorumFailed(acks: nat, required: nat) | GetRingError

  type Response = (NodeId, Option<Versioned>)

  // The nodes with a property, in the order of the given ones.
  function Filter(order: seq<NodeId>, f: NodeId -> bool): seq<NodeId> {
    if order == [] then [] else
      Filter(order[..|order| - 1], f) + (if f(order[|order| - 1]) then [order[|order| - 1]] else [])
  }

  lemma {:induction false} FilterMembers(order: seq<NodeId>, f: NodeId -> bool)
    ensures forall a :: a in Filter(order, f) <==> a in order && f(a)
    ensures InOrder(Filter(order, f), order)
    ensures Distinct(order) ==> Distinct(Filter(order, f))
  {
    if order != [] {
      var init, a := order[..|order| - 1], order[|order| - 1];
      FilterMembers(init, f);
      assert order == init + [a];
      InOrderAppend(Filter(init, f), init, a, f(a));
      if Distinct(order) {
        assert a !in init;
      }
    }
  }

  lemma FilterStep(order: seq<NodeId>, a: NodeId, f: NodeId -> bool)
    ensures Filter(order + [a], f) == Filter(order, f) + if f(a) then [a] else []
  {
    assert (order + [a])[..|order|] == order;
  }

  // Nodes whose write task ended in a given way, in the order the tasks ended.
  function AckedNodes(order: seq<NodeId>, joins: NodeId -> Join): seq<NodeId> {
    Filter(order, a => joins(a) == Ended(Acked))
  }

  function FailedNodes(order: seq<NodeId>, joins: NodeId -> Join): seq<NodeId> {
    Filter(order, a => joins(a).Ended? && joins(a).rpc != Acked)
  }

  // The nodes that a read reaches, in the order in which they answer.
  function Reached(order: seq<NodeId>, reachable: NodeId -> bool): seq<NodeId> {
    Filter(order, reachable)
  }

  lemma ReachedMembers(order: seq<NodeId>, reachable: NodeId -> bool)
    ensures forall a :: a in Reached(order, reachable) <==> a in order && reachable(a)
    ensures InOrder(Reached(order, reachable), order)
    ensures Distinct(order) ==> Distinct(Reached(order, reachable))
  {
    FilterMembers(order, reachable);
  }

  lemma JoinStep(order: seq<NodeId>, a: NodeId, joins: NodeId -> Join)
    ensures AckedNodes(order + [a], joins) == AckedNodes(order, joins) + if joins(a) == Ended(Acked) then [a] else []
    ensures FailedNodes(order + [a], joins)
            == FailedNodes(order, joins) + if joins(a).Ended? && joins(a).rpc != Acked then [a] else []
  {
    FilterStep(order, a, a => joins(a) == Ended(Acked));
    FilterStep(order, a, a => joins(a).Ended? && joins(a).rpc != Acked);
  }

  // What one node's hint database holds after a series of hint writes, of which those in `carried` took place.
  function HintsAfter(db: Db, holder: NodeId, attempts: seq<Pair>, key: Key, v: Versioned, carried: Acceptance): Db
    decreases |attempts|
  {
    if attempts == [] then db else
      var p := attempts[|attempts| - 1];
      var before := HintsAfter(db, holder, attempts[..|attempts| - 1], key, v, carried);
      if p.1 == holder && carried(p.0, p.1) then before[HintKey(p.0, key) := v] else before
  }

  // Exactly what is in a hint database after that: the new version where it was stored for one of the attempts, and at
  // every other compound key what was there before.
  lemma {:induction false} HintsAfterAt(db: Db, holder: NodeId, attempts: seq<Pair>, key: Key, v: Versioned,
                                        carried: Acceptance, x: Bytes)
    ensures Lookup(HintsAfter(db, holder, attempts, key, v, carried), x)
            == if exists t :: (t, holder) in attempts && carried(t, holder) && x == HintKey(t, key) then Some(v)
               else Lookup(db, x)
    decreases |attempts|
  {
    if attempts != [] {
      var n := |attempts| - 1;
      var init, p := attempts[..n], attempts[n];
      assert attempts == init + [p];
      HintsAfterAt(db, holder, init, key, v, carried, x);
      if t :| (t, holder) in init && carried(t, holder) && x == HintKey(t, key) {
        assert (t, holder) in attempts;
      }
      if p.1 == holder && carried(p.0, p.1) && x == HintKey(p.0, key) {
        assert (p.0, holder) in attempts;
      }
    }
  }

  // A store before and after a put, entry by entry: the key's entry where the write landed on a missing or older one.
  ghost predicate IsPutTo(before: Db, after: Db, key: Key, v: Versioned, landed: bool) {
    forall k :: Lookup(after, k)
                == if landed && k == key && (key !in before || before[key].timestamp < v.timestamp) then Some(v)
                   else Lookup(before, k)
  }

  lemma WriteIsPut(before: Db, after: Db, key: Key, v: Versioned, member: bool, join: Join)
    requires after == if member && Lands(join) then Apply(before, Write(key, v)) else before
    ensures IsPutTo(before, after, key, v, member && HasLanded(join))
  {
    forall k {
      ApplyAt(before, Write(key, v), k);
    }
  }

  // A hint database before and after a put, entry by entry. 47 is the byte of the slash.
  ghost predicate AreHintsOf(before: Db, after: Db, c: NodeId, attempts: seq<Pair>, key: Key, v: Versioned,
                             rpc: HintRpc)
  {
    forall x :: Lookup(after, x)
                == if exists t :: (t, c) in attempts && rpc(t, c) != FailedLost && 47 !in t && x == t + [47] + key
                   then Some(v) else Lookup(before, x)
  }

  lemma AttemptsAreHints(before: Db, c: NodeId, attempts: seq<Pair>, key: Key, v: Versioned, rpc: HintRpc)
    ensures AreHintsOf(before, HintsAfter(before, c, attempts, key, v, Arrives(rpc)), c, attempts, key, v, rpc)
  {
    forall x
      ensures Lookup(HintsAfter(before, c, attempts, key, v, Arrives(rpc)), x)
              == if exists t :: (t, c) in attempts && rpc(t, c) != FailedLost && 47 !in t && x == t + [47] + key
                 then Some(v) else Lookup(before, x)
    {
      HintsAfterAt(before, c, attempts, key, v, Arrives(rpc), x);
      if t :| (t, c) in attempts && rpc(t, c) != FailedLost && 47 !in t && x == t + [47] + key {
        assert Arrives(rpc)(t, c) && x == HintKey(t, key);
      }
      if t :| (t, c) in attempts && Arrives(rpc)(t, c) && x == HintKey(t, key) {
        assert rpc(t, c) != FailedLost && 47 !in t && x == t + [47] + key;
      }
    }
  }

  // Which of the first k hint requests were acknowledged by a store that takes the target's id.
  ghost function TakenBefore(attempts: seq<Pair>, k: nat, rpc: HintRpc): set<nat>
    requires k <= |attempts|
  {
    set j: nat | j < k && rpc(attempts[j].0, attempts[j].1) == Acked && 47 !in attempts[j].0
  }

  // The walk of the cursor over a ring order: the k-th node after the first n is asked to hold the hint of the first
  // failed node that no earlier one has taken, until all failed nodes are hinted or the order ends.
  ghost predicate IsHintWalk(attempts: seq<Pair>, hinted: seq<Pair>, failed: seq<NodeId>, all: seq<NodeId>, n: nat,
                             rpc: HintRpc)
    requires n <= |all|
  {
    && |attempts| <= |all| - n
    && (forall k :: 0 <= k < |attempts| ==>
          && |TakenBefore(attempts, k, rpc)| < |failed|
          && attempts[k] == (failed[|TakenBefore(attempts, k, rpc)|], all[n + k]))
    && (|attempts| == |all| - n || |hinted| == |failed|)
    && |hinted| == |TakenBefore(attempts, |attempts|, rpc)|
    && (forall p :: p in hinted <==> p in attempts && rpc(p.0, p.1) == Acked && 47 !in p.0)
  }

  lemma {:induction false} TakenCount(attempts: seq<Pair>, k: nat, rpc: HintRpc)
    requires k <= |attempts|
    ensures |Accepted(attempts[..k], Accepts(rpc))| == |TakenBefore(attempts, k, rpc)|
  {
    if k == 0 {
      assert TakenBefore(attempts, 0, rpc) == {};
    } else {
      TakenCount(attempts, k - 1, rpc);
      var p := attempts[k - 1];
      PrefixStep(attempts, k - 1);
      AcceptedAppend(attempts[..k - 1], p, Accepts(rpc));
      assert Accepts(rpc)(p.0, p.1) <==> rpc(p.0, p.1) == Acked && 47 !in p.0;
      assert TakenBefore(attempts, k, rpc)
             == TakenBefore(attempts, k - 1, rpc) + if Accepts(rpc)(p.0, p.1) then {k - 1} else {};
    }
  }

  lemma AttemptsAreWalk(failed: seq<NodeId>, all: seq<NodeId>, n: nat, rpc: HintRpc)
    requires n <= |all| && Distinct(all)
    ensures var attempts := Attempts(failed, all[n..], Elements(all[..n]), Accepts(rpc));
            IsHintWalk(attempts, Accepted(attempts, Accepts(rpc)), failed, all, n, rpc)
  {
    var attempts := Attempts(failed, all[n..], Elements(all[..n]), Accepts(rpc));
    AttemptsExact(failed, all[n..], Elements(all[..n]), Accepts(rpc));
    AcceptedMembers(attempts, Accepts(rpc));
    forall k | 0 <= k <= |attempts| ensures |Accepted(attempts[..k], Accepts(rpc))| == |TakenBefore(attempts, k, rpc)| {
      TakenCount(attempts, k, rpc);
    }
    assert attempts[..|attempts|] == attempts;
  }

  // The last of the present responses with the greatest timestamp, in response order.
  function Winner(responses: seq<Response>): Option<Versioned> {
    if responses == [] then None else
      var best := Winner(responses[..|responses| - 1]);
      match responses[|responses| - 1].1
      case None => best
      case Some(v) => if best.None? || v.timestamp >= best.value.timestamp then Some(v) else best
  }

  ghost predicate LastGreatest(responses: seq<Response>, v: Versioned) {
    exists i :: 0 <= i < |responses| && responses[i].1 == Some(v)
                && (forall j :: 0 <= j < |responses| && responses[j].1.Some? ==>
                     responses[j].1.value.timestamp <= v.timestamp)
                && (forall j :: i < j < |responses| && responses[j].1.Some? ==>
                     responses[j].1.value.timestamp < v.timestamp)
  }

  lemma {:induction false} WinnerAbsent(responses: seq<Response>)
    ensures Winner(responses).None? <==> forall i :: 0 <= i < |responses| ==> responses[i].1.None?
  {
    if responses != [] {
      var init := responses[..|responses| - 1];
      WinnerAbsent(init);
      assert forall i :: 0 <= i < |init| ==> init[i] == responses[i];
    }
  }

  lemma {:induction false} WinnerIndex(responses: seq<Response>) returns (i: nat)
    requires Winner(responses).Some?
    ensures i < |responses| && responses[i].1 == Winner(responses)
    ensures forall j :: 0 <= j < |responses| && responses[j].1.Some? ==>
            responses[j].1.value.timestamp <= responses[i].1.value.timestamp
    ensures forall j :: i < j < |responses| && responses[j].1.Some? ==>
            responses[j].1.value.timestamp < responses[i].1.value.timestamp
  {
    var n := |responses| - 1;
    var init := responses[..n];
    if Winner(init).None? {
      WinnerAbsent(init);
      i := n;
    } else {
      i := WinnerIndex(init);
      assert responses[i] == init[i];
      if responses[n].1.Some? && responses[n].1.value.timestamp >= init[i].1.value.timestamp {
        i := n;
      }
    }
    assert forall j :: 0 <= j < n ==> init[j] == responses[j];
  }

  lemma LastGreatestIsUnique(responses: seq<Response>, u: Versioned, v: Versioned)
    requires LastGreatest(responses, u) && LastGreatest(responses, v)
    ensures u == v
  {
  }

  // Exactly which value a read returns, ties included.
  lemma WinnerIsLastGreatest(responses: seq<Response>, v: Versioned)
    ensures Winner(responses) == Some(v) <==> LastGreatest(responses, v)
  {
    WinnerAbsent(responses);
    if Winner(responses).Some? {
      var i := WinnerIndex(responses);
      assert LastGreatest(responses, Winner(responses).value);
      if LastGreatest(responses, v) {
        LastGreatestIsUnique(responses, v, Winner(responses).value);
      }
    }
  }

  // The responses of the reachable nodes of an order, each with what its node holds.
  ghost predicate AreAnswers(responses: seq<Response>, order: seq<NodeId>, reachable: NodeId -> bool,
                             held: map<NodeId, Option<Versioned>>)
  {
    && |responses| == |Reached(order, reachable)|
    && forall i :: 0 <= i < |responses| ==>
         Reached(order, reachable)[i] in held
         && responses[i] == (Reached(order, reachable)[i], held[Reached(order, reachable)[i]])
  }

  lemma AnswersOfInit(responses: seq<Response>, order: seq<NodeId>, reachable: NodeId -> bool,
                      held: map<NodeId, Option<Versioned>>)
    requires order != [] && AreAnswers(responses, order, reachable, held)
    ensures var last := order[|order| - 1];
            if reachable(last)
            then |responses| > 0 && last in held && responses[|responses| - 1] == (last, held[last])
                 && AreAnswers(responses[..|responses| - 1], order[..|order| - 1], reachable, held)
            else AreAnswers(responses, order[..|order| - 1], reachable, held)
  {
    var init, last := order[..|order| - 1], order[|order| - 1];
    assert order == init + [last];
    FilterStep(init, last, reachable);
    var nodes, before := Reached(order, reachable), Reached(init, reachable);
    assert nodes == before + if reachable(last) then [last] else [];
    if reachable(last) {
      assert nodes[|nodes| - 1] == last && nodes[|responses| - 1] in held;
      assert forall i :: 0 <= i < |before| ==> nodes[i] == before[i];
    } else {
      assert nodes == before;
    }
  }

  // v is held at some reachable node, nothing newer is held at any, and nothing as new at those that answer later.
  ghost predicate IsLastNewest(order: seq<NodeId>, reachable: NodeId -> bool, held: map<NodeId, Option<Versioned>>,
                               v: Versioned)
  {
    exists i :: && 0 <= i < |order| && reachable(order[i]) && order[i] in held && held[order[i]] == Some(v)
                && (forall j :: 0 <= j < |order| && reachable(order[j]) && order[j] in held && held[order[j]].Some?
                                ==> held[order[j]].value.timestamp <= v.timestamp)
                && (forall j :: i < j < |order| && reachable(order[j]) && order[j] in held && held[order[j]].Some?
                                ==> held[order[j]].value.timestamp < v.timestamp)
  }

  // Some reachable node holds something.
  ghost predicate IsHeld(order: seq<NodeId>, reachable: NodeId -> bool, held: map<NodeId, Option<Versioned>>) {
    exists i :: 0 <= i < |order| && reachable(order[i]) && order[i] in held && held[order[i]].Some?
  }

  lemma {:induction false} WinnerIsHeld(responses: seq<Response>, order: seq<NodeId>, reachable: NodeId -> bool,
                                        held: map<NodeId, Option<Versioned>>)
    requires AreAnswers(responses, order, reachable, held)
    ensures Winner(responses).Some? <==> IsHeld(order, reachable, held)
  {
    if order != [] {
      var n := |order| - 1;
      var init, last := order[..n], order[n];
      AnswersOfInit(responses, order, reachable, held);
      WinnerIsHeld(if reachable(last) then responses[..|responses| - 1] else responses, init, reachable, held);
      if IsHeld(init, reachable, held) {
        var i :| 0 <= i < n && reachable(init[i]) && init[i] in held && held[init[i]].Some?;
        assert order[i] == init[i];
      }
      if i :| 0 <= i < n && reachable(order[i]) && order[i] in held && held[order[i]].Some? {
        assert init[i] == order[i];
      }
    }
  }

  lemma {:induction false} WinnerIsLastNewest(responses: seq<Response>, order: seq<NodeId>, reachable: NodeId -> bool,
                                              held: map<NodeId, Option<Versioned>>)
    requires AreAnswers(responses, order, reachable, held) && Winner(responses).Some?
    ensures IsLastNewest(order, reachable, held, Winner(responses).value)
  {
    if order != [] {
      var n := |order| - 1;
      var init, last := order[..n], order[n];
      var before := if reachable(last) then responses[..|responses| - 1] else responses;
      AnswersOfInit(responses, order, reachable, held);
      WinnerIsHeld(before, init, reachable, held);
      assert forall j :: 0 <= j < n ==> init[j] == order[j];
      if Winner(before).Some? {
        WinnerIsLastNewest(before, init, reachable, held);
        LastNewestGrows(init, last, reachable, held, Winner(before).value);
        assert order == init + [last];
      } else {
        assert forall j :: 0 <= j < n && reachable(order[j]) && order[j] in held ==> held[order[j]].None?;
        assert held[order[n]] == Winner(responses);
      }
    }
  }

  lemma LastNewestGrows(order: seq<NodeId>, a: NodeId, reachable: NodeId -> bool, held: map<NodeId, Option<Versioned>>,
                        v: Versioned)
    requires IsLastNewest(order, reachable, held, v) && (reachable(a) ==> a in held)
    ensures if reachable(a) && held[a].Some? && held[a].value.timestamp >= v.timestamp
            then IsLastNewest(order + [a], reachable, held, held[a].value)
            else IsLastNewest(order + [a], reachable, held, v)
  {
    var i :| && 0 <= i < |order| && reachable(order[i]) && order[i] in held && held[order[i]] == Some(v)
             && (forall j :: 0 <= j < |order| && reachable(order[j]) && order[j] in held && held[order[j]].Some?
                             ==> held[order[j]].value.timestamp <= v.timestamp)
             && (forall j :: i < j < |order| && reachable(order[j]) && order[j] in held && held[order[j]].Some?
                             ==> held[order[j]].value.timestamp < v.timestamp);
    var whole := order + [a];
    assert forall j :: 0 <= j < |order| ==> whole[j] == order[j];
    if reachable(a) && held[a].Some? && held[a].value.timestamp >= v.timestamp {
      assert whole[|order|] == a;
    } else {
      assert whole[i] == order[i];
    }
  }

  lemma LastNewestIsUnique(order: seq<NodeId>, reachable: NodeId -> bool, held: map<NodeId, Option<Versioned>>,
                           u: Versioned, v: Versioned)
    requires IsLastNewest(order, reachable, held, u) && IsLastNewest(order, reachable, held, v)
    ensures u == v
  {
  }

  // What a read returns, told from who answers in which order and what each holds.
  lemma WinnerTold(responses: seq<Response>, order: seq<NodeId>, reachable: NodeId -> bool,
                   held: map<NodeId, Option<Versioned>>)
    requires AreAnswers(responses, order, reachable, held)
    ensures forall v :: Winner(responses) == Some(v) <==> IsLastNewest(order, reachable, held, v)
    ensures Winner(responses).Some? <==> IsHeld(order, reachable, held)
  {
    WinnerIsHeld(responses, order, reachable, held);
    if Winner(responses).Some? {
      WinnerIsLastNewest(responses, order, reachable, held);
      forall v | IsLastNewest(order, reachable, held, v) ensures Winner(responses) == Some(v) {
        LastNewestIsUnique(order, reachable, held, v, Winner(responses).value);
      }
    }
  }

  lemma ReachedCount(order: seq<NodeId>, reachable: NodeId -> bool)
    requires Distinct(order)
    ensures |Reached(order, reachable)| == |set a | a in order && reachable(a)|
  {
    ReachedMembers(order, reachable);
    DistinctCount(Reached(order, reachable));
    assert Elements(Reached(order, reachable)) == set a | a in order && reachable(a);
  }

  lemma ReachedOnRing(preferred: seq<NodeId>, order: seq<NodeId>, reachable: NodeId -> bool)
    requires IsJoinOrder(order, preferred)
    ensures |Reached(order, reachable)| == |set a | a in preferred && reachable(a)|
  {
    ReachedCount(order, reachable);
    assert forall a :: a in order <==> a in Elements(order);
    assert forall a :: a in preferred <==> a in Elements(preferred);
    assert (set a | a in preferred && reachable(a)) == set a | a in order && reachable(a);
  }

  lemma {:induction false} RepairsInOrder(responses: seq<Response>, nodes: seq<NodeId>, ts: nat)
    requires |nodes| == |responses| && forall i :: 0 <= i < |nodes| ==> nodes[i] == responses[i].0
    ensures InOrder(Repairs(responses, ts), nodes) && (forall a :: a in Repairs(responses, ts) ==> a in nodes)
    ensures Distinct(nodes) ==> Distinct(Repairs(responses, ts))
  {
    if responses != [] {
      var n := |responses| - 1;
      RepairsInOrder(responses[..n], nodes[..n], ts);
      assert nodes == nodes[..n] + [nodes[n]];
      InOrderAppend(Repairs(responses[..n], ts), nodes[..n], nodes[n], NeedsRepair(responses[n].1, ts));
    }
  }

  lemma InOrderWithin(a: seq<NodeId>, b: seq<NodeId>, whole: seq<NodeId>)
    requires InOrder(a, b) && InOrder(b, whole)
    ensures InOrder(a, whole)
  {
    forall i, j | 0 <= i < j < |a| ensures Precedes(whole, a[i], a[j]) {
      assert Precedes(b, a[i], a[j]);
      var x, y :| 0 <= x < y < |b| && b[x] == a[i] && b[y] == a[j];
      assert Precedes(whole, b[x], b[y]);
    }
  }

  // The repaired nodes: those reachable that lack the key or hold something older.
  lemma RepairsTold(responses: seq<Response>, order: seq<NodeId>, reachable: NodeId -> bool,
                    held: map<NodeId, Option<Versioned>>, ts: nat)
    requires AreAnswers(responses, order, reachable, held)
    ensures forall a :: a in Repairs(responses, ts) <==>
              && a in order && reachable(a) && a in held
              && (held[a].None? || held[a].value.timestamp < ts)
  {
    ReachedMembers(order, reachable);
    RepairsMembers(responses, ts);
    forall a | a in order && reachable(a) && a in held && (held[a].None? || held[a].value.timestamp < ts)
      ensures a in Repairs(responses, ts)
    {
      assert a in Reached(order, reachable);
      var i :| 0 <= i < |responses| && Reached(order, reachable)[i] == a;
      assert responses[i].0 == a;
    }
  }

  lemma RepairsOnce(responses: seq<Response>, order: seq<NodeId>, reachable: NodeId -> bool,
                    held: map<NodeId, Option<Versioned>>, ts: nat)
    requires Distinct(order) && AreAnswers(responses, order, reachable, held)
    ensures Distinct(Repairs(responses, ts)) && InOrder(Repairs(responses, ts), order)
  {
    ReachedMembers(order, reachable);
    RepairsInOrder(responses, Reached(order, reachable), ts);
    InOrderWithin(Repairs(responses, ts), Reached(order, reachable), order);
  }

  lemma GetTold(preferred: seq<NodeId>, order: seq<NodeId>, reachable: NodeId -> bool,
                held: map<NodeId, Option<Versioned>>, responses: seq<Response>)
    requires IsJoinOrder(order, preferred) && AreAnswers(responses, order, reachable, held)
    ensures forall v :: Winner(responses) == Some(v) <==> IsLastNewest(order, reachable, held, v)
    ensures Winner(responses).Some? <==> IsHeld(order, reachable, held)
    ensures Winner(responses).Some? ==>
              forall a :: a in Repairs(responses, Winner(responses).value.timestamp) <==>
                && a in (set b | b in preferred && reachable(b)) && a in held
                && (held[a].None? || held[a].value.timestamp < Winner(responses).value.timestamp)
    ensures Winner(responses).Some? ==>
              var repairs := Repairs(responses, Winner(responses).value.timestamp);
              Distinct(repairs) && InOrder(repairs, order)
  {
    WinnerTold(responses, order, reachable, held);
    if Winner(responses).Some? {
      RepairsTold(responses, order, reachable, held, Winner(responses).value.timestamp);
      RepairsOnce(responses, order, reachable, held, Winner(responses).value.timestamp);
      assert forall a :: a in order <==> a in Elements(order);
      assert forall a :: a in preferred <==> a in Elements(preferred);
    }
  }

  predicate NeedsRepair(response: Option<Versioned>, ts: nat) {
    match response
    case None => true
    case Some(v) => v.timestamp < ts
  }

  // The responders that a read with the given winner repairs, in response order.
  function Repairs(responses: seq<Response>, ts: nat): seq<NodeId> {
    if responses == [] then [] else
      Repairs(responses[..|responses| - 1], ts)
      + (if NeedsRepair(responses[|responses| - 1].1, ts) then [responses[|responses| - 1].0] else [])
  }

  lemma {:induction false} RepairsMembers(responses: seq<Response>, ts: nat)
    ensures forall a ::
              a in Repairs(responses, ts) <==>
              exists i :: 0 <= i < |responses| && responses[i].0 == a && NeedsRepair(responses[i].1, ts)
  {
    if responses != [] {
      var n := |responses| - 1;
      RepairsMembers(responses[..n], ts);
      forall a
        ensures a in Repairs(responses, ts)
                <==> exists i :: 0 <= i < |responses| && responses[i].0 == a && NeedsRepair(responses[i].1, ts)
      {
        if a in Repairs(responses[..n], ts) {
          var i :| 0 <= i < n && responses[..n][i].0 == a && NeedsRepair(responses[..n][i].1, ts);
          assert responses[i].0 == a;
        }
        if i :| 0 <= i < |responses| && responses[i].0 == a && NeedsRepair(responses[i].1, ts) {
          if i < n {
            assert responses[..n][i].0 == a;
          }
        }
      }
    }
  }

  // What a responder holds once its repair, if it needs one, has been applied.
  function Repaired(response: Option<Versioned>, winner: Versioned): Versioned {
    if NeedsRepair(response, winner.timestamp) then Merge(response, winner) else response.value
  }

  // Read repair makes all responders equal to the winner exactly when no responder holds other data at the winner's
  // timestamp: an equal timestamp is neither repaired nor overwritten.
  lemma RepairConvergesIffNoTie(responses: seq<Response>, winner: Versioned)
    requires Winner(responses) == Some(winner)
    ensures (forall i :: 0 <= i < |responses| ==> Repaired(responses[i].1, winner) == winner)
            <==> forall i :: && 0 <= i < |responses| && responses[i].1.Some?
                             && responses[i].1.value.timestamp == winner.timestamp
                             ==> responses[i].1.value.data == winner.data
  {
    WinnerIsLastGreatest(responses, winner);
    if forall i :: 0 <= i < |responses| && responses[i].1.Some? && responses[i].1.value.timestamp == winner.timestamp
        ==> responses[i].1.value.data == winner.data {
      forall i | 0 <= i < |responses| ensures Repaired(responses[i].1, winner) == winner {
        if responses[i].1.Some? {
          assert responses[i].1.value.timestamp <= winner.timestamp;
        }
      }
    }
  }

  // After the attempts `done` the loop goes on as planned, from candidate i with the targets that are left.
  ghost predicate OnPlan(plan: seq<Pair>, done: seq<Pair>, left: seq<NodeId>, candidates: seq<NodeId>, i: nat,
                         preferred: set<NodeId>, accepts: Acceptance)
    requires i <= |candidates|
  {
    plan == done + Attempts(left, candidates[i..], preferred, accepts)
  }

  // Attempts have been added, of which only the last, if any, was accepted.
  ghost predicate IsExtended(sofar: seq<Pair>, attempts: seq<Pair>, placed: bool, accepts: Acceptance) {
    && (placed ==> attempts != [])
    && Accepted(attempts, accepts)
       == Accepted(sofar, accepts) + if placed then [attempts[|attempts| - 1]] else []
  }

  lemma TurnOnPlan(plan: seq<Pair>, done: seq<Pair>, left: seq<NodeId>, candidates: seq<NodeId>, i: nat,
                   preferred: set<NodeId>, accepts: Acceptance)
    requires left != [] && i < |candidates| && OnPlan(plan, done, left, candidates, i, preferred, accepts)
    ensures var p := (left[0], candidates[i]);
            if p.1 in preferred then OnPlan(plan, done, left, candidates, i + 1, preferred, accepts)
            else
              && OnPlan(plan, done + [p], if accepts(p.0, p.1) then left[1..]
                   else left, candidates, i + 1, preferred, accepts)
              && IsExtended(done, done + [p], accepts(p.0, p.1), accepts)
  {
    assert candidates[i..][1..] == candidates[i + 1..];
    AcceptedAppend(done, (left[0], candidates[i]), accepts);
  }

  lemma PlanBegins(failed: seq<NodeId>, candidates: seq<NodeId>, preferred: set<NodeId>, accepts: Acceptance)
    ensures OnPlan(Attempts(failed, candidates, preferred, accepts), [], failed[0..], candidates, 0, preferred, accepts)
  {
    assert failed[0..] == failed && candidates[0..] == candidates;
  }

  lemma NoCandidatesLeft(plan: seq<Pair>, done: seq<Pair>, left: seq<NodeId>, next: seq<NodeId>,
                         candidates: seq<NodeId>, preferred: set<NodeId>, accepts: Acceptance)
    requires OnPlan(plan, done, left, candidates, |candidates|, preferred, accepts)
    ensures OnPlan(plan, done, next, candidates, |candidates|, preferred, accepts)
  {
  }

  lemma PlanEnds(plan: seq<Pair>, done: seq<Pair>, candidates: seq<NodeId>, i: nat, preferred: set<NodeId>,
                 accepts: Acceptance)
    requires i <= |candidates| && OnPlan(plan, done, [], candidates, i, preferred, accepts)
    ensures plan == done
  {
  }

  // The write was carried out, whatever the coordinator learned of it.
  predicate HasLanded(join: Join) {
    join == Ended(Acked) || join == Ended(FailedApplied) || join == Panicked(true)
  }

  // Whom a put counts: the nodes that acknowledged and those that failed, each once and in the order in which the tasks
  // ended; the walk of its hints; no node counts twice, and at most n count.
  ghost predicate IsCounted(acked: seq<NodeId>, failed: seq<NodeId>, attempts: seq<Pair>, hinted: seq<Pair>,
                            all: seq<NodeId>, n: nat, order: seq<NodeId>, joins: NodeId -> Join, rpc: HintRpc)
    requires n <= |all|
  {
    && (forall a :: a in acked <==> a in all[..n] && joins(a) == Ended(Acked))
    && (forall a :: a in failed <==>
          a in all[..n] && (joins(a) == Ended(FailedApplied) || joins(a) == Ended(FailedLost)))
    && Distinct(acked) && InOrder(acked, order) && Distinct(failed) && InOrder(failed, order)
    && IsHintWalk(attempts, hinted, failed, all, n, rpc)
    && Distinct(acked + Holders(hinted)) && Distinct(acked + Targets(hinted))
    && |acked| + |hinted| <= n
  }

  // Who is counted by a put: acknowledged nodes and hint holders are all different, as are acknowledged nodes and
  // hinted targets, and together they are at most n.
  lemma CountsApart(all: seq<NodeId>, n: nat, order: seq<NodeId>, joins: NodeId -> Join, accepts: Acceptance)
    requires n <= |all| && Distinct(all) && IsJoinOrder(order, all[..n])
    ensures var acked, failed := AckedNodes(order, joins), FailedNodes(order, joins);
            var hinted := Placements(failed, all[n..], Elements(all[..n]), accepts);
            && (forall a :: a in acked <==> a in all[..n] && joins(a) == Ended(Acked))
            && Distinct(acked + Holders(hinted)) && Distinct(acked + Targets(hinted))
            && (forall p :: p in hinted ==> p.0 in all[..n] && p.1 !in all[..n] && p.1 in all[n..])
            && |acked| + |hinted| <= n
  {
    var preferred, candidates := all[..n], all[n..];
    var acked, failed := AckedNodes(order, joins), FailedNodes(order, joins);
    var attempts := Attempts(failed, candidates, Elements(preferred), accepts);
    var hinted := Accepted(attempts, accepts);
    JoinsSplit(order, joins);
    assert forall a :: a in order <==> a in Elements(order);
    assert forall a :: a in preferred <==> a in Elements(preferred);
    AttemptsDistinct(failed, candidates, Elements(preferred), accepts);
    AcceptedMembers(attempts, accepts);
    AcceptedDistinct(attempts, accepts);
    PlacementsInOrder(failed, candidates, Elements(preferred), accepts);
    DistinctCount(order);
    DistinctCount(preferred);
    CountedDiffer(acked, failed, hinted, Elements(preferred));
  }

  // The order in which parallel tasks ended: each preferred node once.
  ghost predicate IsJoinOrder(order: seq<NodeId>, preferred: seq<NodeId>) {
    Distinct(order) && Elements(order) == Elements(preferred)
  }

  class ReplicatedStore {
    const n: nat
    const w: nat
    const r: nat
    const ring: Ring
    // The stores behind each node's internal routes, this node's own included.
    const replicas: map<NodeId, RocksDbStore>
    const hintStores: map<NodeId, HintStore>

    ghost predicate Valid()
      reads hintStores.Values
    {
      && ValidRing(ring, n)
      && (forall k :: ring(k).Some? ==> forall a :: a in ring(k).value ==> a in replicas && a in hintStores)
      && (forall a, b :: a in replicas && b in replicas && a != b ==> replicas[a] != replicas[b])
      && (forall a, b :: a in hintStores && b in hintStores && a != b ==> hintStores[a] != hintStores[b])
      && (forall a :: a in hintStores ==> hintStores[a].Valid())
    }

    constructor (n: nat, w: nat, r: nat, ring: Ring, replicas: map<NodeId, RocksDbStore>,
                 hintStores: map<NodeId, HintStore>)
      ensures this.n == n && this.w == w && this.r == r && this.ring == ring
      ensures this.replicas == replicas && this.hintStores == hintStores
    {
      this.n, this.w, this.r, this.ring := n, w, r, ring;
      this.replicas, this.hintStores := replicas, hintStores;
    }

    // Each replica after the write tasks of some nodes have ended.
    ghost predicate ReplicaDbs(before: map<NodeId, Db>, done: seq<NodeId>, w: Write, joins: NodeId -> Join)
      requires before.Keys == replicas.Keys
      reads replicas.Values
    {
      forall a :: a in replicas ==> replicas[a].db == if a in done && Lands(joins(a)) then Apply(before[a], w)
          else before[a]
    }

    // One write task: what its node's replica holds once it has ended.
    method WriteTo(a: NodeId, ghost before: map<NodeId, Db>, ghost done: seq<NodeId>, key: Key, v: Versioned,
                   joins: NodeId -> Join)
      requires Valid() && a in replicas && a !in done
      requires before.Keys == replicas.Keys && ReplicaDbs(before, done, Write(key, v), joins)
      modifies replicas[a]
      ensures ReplicaDbs(before, done + [a], Write(key, v), joins)
    {
      if Lands(joins(a)) {
        replicas[a].PutIfNewer(key, v.data, v.timestamp);
      }
    }

    // Phase one of put: a versioned write to every preferred node.
    method WritePhase(key: Key, v: Versioned, order: seq<NodeId>, joins: NodeId -> Join)
      returns (acked: seq<NodeId>, failed: seq<NodeId>)
      requires Valid() && Distinct(order) && forall a :: a in order ==> a in replicas
      modifies replicas.Values
      ensures acked == AckedNodes(order, joins) && failed == FailedNodes(order, joins)
      ensures forall a :: a in replicas ==>
                replicas[a].db == if a in order && Lands(joins(a)) then Apply(old(replicas[a].db), Write(key, v))
                    else old(replicas[a].db)
      ensures forall a :: a in acked ==> a in replicas && AtLeast(Lookup(replicas[a].db, key), v.timestamp)
      ensures forall a :: a in replicas ==>
                IsPutTo(old(replicas[a].db), replicas[a].db, key, v, a in order && HasLanded(joins(a)))
    {
      ghost var before := map a | a in replicas :: replicas[a].db;
      acked, failed := [], [];
      for i := 0 to |order|
        invariant acked == AckedNodes(order[..i], joins) && failed == FailedNodes(order[..i], joins)
        invariant ReplicaDbs(before, order[..i], Write(key, v), joins)
      {
        var a := order[i];
        PrefixStep(order, i);
        JoinStep(order[..i], a, joins);
        assert a in order && a !in order[..i];
        WriteTo(a, before, order[..i], key, v, joins);
        match joins(a) {
          case Ended(rpc) =>
            if rpc == Acked {
              acked := acked + [a];
            } else {
              failed := failed + [a];
            }
          case Panicked(_) =>
        }
      }
      assert order[..|order|] == order;
      AckedLanded(order, joins);
      forall a | a in replicas
        ensures IsPutTo(before[a], replicas[a].db, key, v,
                        a in order && HasLanded(joins(a)))
      {
        WriteIsPut(before[a], replicas[a].db, key, v, a in order, joins(a));
      }
      forall a | a in acked ensures a in replicas && AtLeast(Lookup(replicas[a].db, key), v.timestamp) {
        ApplyCovers(before[a], Write(key, v));
      }
    }

    ghost predicate HintDbs(before: map<NodeId, Db>, attempts: seq<Pair>, key: Key, v: Versioned, carried: Acceptance)
      requires before.Keys == hintStores.Keys
      reads hintStores.Values
    {
      forall c :: c in hintStores ==> hintStores[c].db == HintsAfter(before[c], c, attempts, key, v, carried)
    }

    method SendHint(key: Key, v: Versioned, target: NodeId, candidate: NodeId, rpc: Rpc) returns (ok: bool)
      requires Valid() && candidate in hintStores
      modifies hintStores[candidate]
      ensures Valid()
      ensures ok <==> rpc == Acked && ValidTarget(target)
      ensures hintStores[candidate].db == if Carried(rpc) && ValidTarget(target)
              then old(hintStores[candidate].db)[HintKey(target, key) := v]
                                          else old(hintStores[candidate].db)
    {
      ok := false;
      if Carried(rpc) {
        ok := hintStores[candidate].StoreHint(target, key, v.data, v.timestamp);
      }
      ok := ok && rpc == Acked;
    }

    // The same among all hint stores, with the books of the attempts.
    method Attempt(key: Key, v: Versioned, target: NodeId, candidate: NodeId, rpc: HintRpc,
                   ghost before: map<NodeId, Db>, sofar: seq<Pair>)
      returns (attempts: seq<Pair>, placed: bool)
      requires Valid() && candidate in hintStores
      requires before.Keys == hintStores.Keys && HintDbs(before, sofar, key, v, Arrives(rpc))
      modifies hintStores[candidate]
      ensures Valid() && attempts == sofar + [(target, candidate)] && (placed <==> Accepts(rpc)(target, candidate))
      ensures HintDbs(before, attempts, key, v, Arrives(rpc))
    {
      HintsAfterStep(before, sofar, (target, candidate), key, v, Arrives(rpc));
      placed := SendHint(key, v, target, candidate, rpc(target, candidate));
      attempts := sofar + [(target, candidate)];
    }

    // One turn: the candidate at the cursor is passed over, or asked to hold the target's hint.
    method Turn(key: Key, v: Versioned, ghost left: seq<NodeId>, target: NodeId, candidates: seq<NodeId>, i: nat,
                preferred: set<NodeId>, rpc: HintRpc, ghost before: map<NodeId, Db>, sofar: seq<Pair>,
                ghost plan: seq<Pair>)
      returns (attempts: seq<Pair>, placed: bool)
      requires Valid() && i < |candidates| && candidates[i] in hintStores
      requires left != [] && left[0] == target && OnPlan(plan, sofar, left, candidates, i, preferred, Accepts(rpc))
      requires before.Keys == hintStores.Keys && HintDbs(before, sofar, key, v, Arrives(rpc))
      modifies hintStores[candidates[i]]
      ensures Valid() && HintDbs(before, attempts, key, v, Arrives(rpc))
      ensures OnPlan(plan, attempts, if placed then left[1..] else left, candidates, i + 1, preferred, Accepts(rpc))
      ensures IsExtended(sofar, attempts, placed, Accepts(rpc))
    {
      TurnOnPlan(plan, sofar, left, candidates, i, preferred, Accepts(rpc));
      if candidates[i] in preferred {
        return sofar, false;
      }
      attempts, placed := Attempt(key, v, target, candidates[i], rpc, before, sofar);
    }

    // One slot of phase two: candidates are tried from the cursor on until one accepts the target's hint.
    method FillSlot(key: Key, v: Versioned, ghost left: seq<NodeId>, target: NodeId, candidates: seq<NodeId>,
                    cursor: nat,
                    preferred: set<NodeId>, rpc: HintRpc, ghost before: map<NodeId, Db>, sofar: seq<Pair>,
                    ghost plan: seq<Pair>)
      returns (candidateIdx: nat, attempts: seq<Pair>, placed: bool)
      requires Valid() && forall c :: c in candidates ==> c in hintStores
      requires left != [] && left[0] == target && cursor <= |candidates|
      requires OnPlan(plan, sofar, left, candidates, cursor, preferred, Accepts(rpc))
      requires before.Keys == hintStores.Keys && HintDbs(before, sofar, key, v, Arrives(rpc))
      modifies hintStores.Values
      ensures Valid() && HintDbs(before, attempts, key, v, Arrives(rpc))
      ensures cursor <= candidateIdx <= |candidates| && (!placed ==> candidateIdx == |candidates|)
      ensures OnPlan(plan, attempts, if placed then left[1..]
              else left, candidates, candidateIdx, preferred, Accepts(rpc))
      ensures IsExtended(sofar, attempts, placed, Accepts(rpc))
    {
      candidateIdx, attempts, placed := cursor, sofar, false;
      while candidateIdx < |candidates|
        invariant cursor <= candidateIdx <= |candidates|
        invariant Valid() && HintDbs(before, attempts, key, v, Arrives(rpc))
        invariant OnPlan(plan, attempts, left, candidates, candidateIdx, preferred, Accepts(rpc))
        invariant !placed && IsExtended(sofar, attempts, false, Accepts(rpc))
      {
        attempts, placed := Turn(key, v, left, target, candidates, candidateIdx, preferred, rpc, before,
            attempts, plan);
        candidateIdx := candidateIdx + 1;
        if placed {
          return;
        }
      }
    }

    // Phase two of put: hints for the failed nodes.
    method HintPhase(key: Key, v: Versioned, failed: seq<NodeId>, candidates: seq<NodeId>, preferred: set<NodeId>,
                     rpc: HintRpc)
      returns (attempts: seq<Pair>, hinted: seq<Pair>)
      requires Valid() && forall c :: c in candidates ==> c in hintStores
      modifies hintStores.Values
      ensures Valid()
      ensures attempts == Attempts(failed, candidates, preferred, Accepts(rpc))
      ensures hinted == Accepted(attempts, Accepts(rpc))
      ensures forall c :: c in hintStores ==>
                hintStores[c].db == HintsAfter(old(hintStores[c].db), c, attempts, key, v, Arrives(rpc))
      ensures Distinct(candidates) ==>
                forall p :: p in hinted ==>
                  p.1 in hintStores && Lookup(hintStores[p.1].db, HintKey(p.0, key)) == Some(v)
      ensures forall c :: c in hintStores ==>
                AreHintsOf(old(hintStores[c].db), hintStores[c].db, c, attempts, key, v, rpc)
    {
      ghost var before := map c | c in hintStores :: hintStores[c].db;
      ghost var plan := Attempts(failed, candidates, preferred, Accepts(rpc));
      PlanBegins(failed, candidates, preferred, Accepts(rpc));
      var candidateIdx := 0;
      attempts, hinted := [], [];
      for slot := 0 to |failed|
        invariant candidateIdx <= |candidates|
        invariant Valid() && HintDbs(before, attempts, key, v, Arrives(rpc))
        invariant OnPlan(plan, attempts, failed[slot..], candidates, candidateIdx, preferred, Accepts(rpc))
        invariant hinted == Accepted(attempts, Accepts(rpc))
      {
        ghost var left := failed[slot..];
        assert left[1..] == failed[slot + 1..];
        var placed;
        candidateIdx, attempts, placed :=
          FillSlot(key, v, left, failed[slot], candidates, candidateIdx, preferred, rpc, before, attempts, plan);
        if placed {
          hinted := hinted + [attempts[|attempts| - 1]];
        } else {
          NoCandidatesLeft(plan, attempts, left, failed[slot + 1..], candidates, preferred, Accepts(rpc));
        }
      }
      assert failed[|failed|..] == [];
      PlanEnds(plan, attempts, candidates, candidateIdx, preferred, Accepts(rpc));
      forall c | c in hintStores ensures AreHintsOf(before[c], hintStores[c].db, c, attempts, key, v, rpc) {
        AttemptsAreHints(before[c], c, attempts, key, v, rpc);
      }
      if Distinct(candidates) {
        HintedAreKept(before, failed, candidates, preferred, key, v, rpc);
      }
    }

    // Both phases of put, with what they leave in every store.
    method Replicate(key: Key, v: Versioned, all: seq<NodeId>, order: seq<NodeId>, joins: NodeId -> Join, rpc: HintRpc)
      returns (acked: seq<NodeId>, failed: seq<NodeId>, attempts: seq<Pair>, hinted: seq<Pair>)
      requires Valid() && ring(key) == Some(all)
      requires IsJoinOrder(order, all[..n])
      modifies replicas.Values, hintStores.Values
      ensures Valid()
      ensures acked == AckedNodes(order, joins) && failed == FailedNodes(order, joins)
      ensures attempts == Attempts(failed, all[n..], Elements(all[..n]), Accepts(rpc))
      ensures hinted == Accepted(attempts, Accepts(rpc))
      ensures forall p :: p in hinted ==> p.1 in hintStores && Lookup(hintStores[p.1].db, HintKey(p.0, key)) == Some(v)
      ensures forall a :: a in acked ==> a in replicas && AtLeast(Lookup(replicas[a].db, key), v.timestamp)
      ensures forall a :: a in replicas ==>
                IsPutTo(old(replicas[a].db), replicas[a].db, key, v, a in order && HasLanded(joins(a)))
      ensures forall c :: c in hintStores ==>
                AreHintsOf(old(hintStores[c].db), hintStores[c].db, c, attempts, key, v, rpc)
    {
      JoinOrderWithin(order, all, n);
      acked, failed := WritePhase(key, v, order, joins);
      attempts, hinted := HintPhase(key, v, failed, all[n..], Elements(all[..n]), rpc);
    }

    // A put of a key that the ring can place: whom it counts, and what it leaves in every store.
    method PutOnRing(key: Key, v: Versioned, all: seq<NodeId>, order: seq<NodeId>, joins: NodeId -> Join, rpc: HintRpc)
      returns (acked: seq<NodeId>, failed: seq<NodeId>, attempts: seq<Pair>, hinted: seq<Pair>)
      requires Valid() && ring(key) == Some(all)
      requires IsJoinOrder(order, all[..n])
      modifies replicas.Values, hintStores.Values
      ensures Valid()
      ensures IsCounted(acked, failed, attempts, hinted, all, n, order, joins, rpc)
      ensures IgnoresTarget(Elements(all[..n]), Elements(all[n..]), Elements(all[..n]), Accepts(rpc))
              ==> |hinted| == Min(|failed|, |Takers(rpc, Elements(all[..n]), all[n..])|)
      ensures forall a :: a in replicas ==>
                IsPutTo(old(replicas[a].db), replicas[a].db, key, v, a in order && HasLanded(joins(a)))
      ensures forall c :: c in hintStores ==>
                AreHintsOf(old(hintStores[c].db), hintStores[c].db, c, attempts, key, v, rpc)
      ensures forall a :: a in acked ==> a in replicas && AtLeast(Lookup(replicas[a].db, key), v.timestamp)
      ensures forall p :: p in hinted ==> p.1 in hintStores && Lookup(hintStores[p.1].db, HintKey(p.0, key)) == Some(v)
    {
      acked, failed, attempts, hinted := Replicate(key, v, all, order, joins, rpc);
      PutCounts(all, order, joins, rpc, acked, failed, attempts, hinted);
    }

    method Put(key: Key, value: Bytes, ts: nat, order: seq<NodeId>, joins: NodeId -> Join, rpc: HintRpc)
      returns (result: PutResult, acked: seq<NodeId>, failed: seq<NodeId>, attempts: seq<Pair>, hinted: seq<Pair>)
      requires Valid()
      requires IsJoinOrder(order, PreferenceList(ring, n, key))
      modifies replicas.Values, hintStores.Values
      ensures Valid()
      // The result, whom it counts, and who was asked to hold which hint.
      ensures ring(key).None? <==> result.PutRingError?
      ensures ring(key).None? ==> order == acked == failed == [] && attempts == hinted == []
      ensures ring(key).Some? ==> IsCounted(acked, failed, attempts, hinted, ring(key).value, n, order, joins, rpc)
      ensures ring(key).Some? && |acked| + |hinted| >= w ==> result == PutOk
      ensures ring(key).Some? && |acked| + |hinted| < w ==> result == PutQuorumFailed(|acked| + |hinted|, w)
      // In closed form, where a candidate's answer does not depend on the target.
      ensures ring(key).Some? ==>
                var preferred, candidates := Elements(ring(key).value[..n]), ring(key).value[n..];
                IgnoresTarget(preferred, Elements(candidates), preferred, Accepts(rpc))
                ==> |hinted| == Min(|failed|, |Takers(rpc, preferred, candidates)|)
      // The whole new state, entry by entry.
      ensures forall a :: a in replicas ==>
                IsPutTo(old(replicas[a].db), replicas[a].db, key, Versioned(ts, value),
                        a in order && HasLanded(joins(a)))
      ensures forall c :: c in hintStores ==>
                AreHintsOf(old(hintStores[c].db), hintStores[c].db, c, attempts, key, Versioned(ts, value), rpc)
      // Every counted acknowledgement stands for a node that holds the write, or a hint for it.
      ensures forall a :: a in acked ==> a in replicas && AtLeast(Lookup(replicas[a].db, key), ts)
      ensures forall p :: p in hinted ==>
                p.1 in hintStores && Lookup(hintStores[p.1].db, HintKey(p.0, key)) == Some(Versioned(ts, value))
    {
      var v := Versioned(ts, value);
      match ring(key) {
        case None =>
          DistinctCount(order);
          return PutRingError, [], [], [], [];
        case Some(all) =>
          acked, failed, attempts, hinted := PutOnRing(key, v, all, order, joins, rpc);
          var acks := |acked| + |hinted|;
          result := if acks >= w then PutOk else PutQuorumFailed(acks, w);
      }
    }

    // Whom a put counts, told from the ring order and the outcomes alone.
    lemma PutCounts(all: seq<NodeId>, order: seq<NodeId>, joins: NodeId -> Join, rpc: HintRpc,
                    acked: seq<NodeId>, failed: seq<NodeId>, attempts: seq<Pair>, hinted: seq<Pair>)
      requires n <= |all| && Distinct(all) && IsJoinOrder(order, all[..n])
      requires acked == AckedNodes(order, joins) && failed == FailedNodes(order, joins)
      requires attempts == Attempts(failed, all[n..], Elements(all[..n]), Accepts(rpc))
      requires hinted == Accepted(attempts, Accepts(rpc))
      ensures IsCounted(acked, failed, attempts, hinted, all, n, order, joins, rpc)
      ensures IgnoresTarget(Elements(all[..n]), Elements(all[n..]), Elements(all[..n]), Accepts(rpc))
              ==> |hinted| == Min(|failed|, |Takers(rpc, Elements(all[..n]), all[n..])|)
    {
      JoinsSplit(order, joins);
      FailedArePreferred(order, all[..n], joins);
      HintsInClosedForm(Elements(all[..n]), failed, all[n..], rpc);
      CountsApart(all, n, order, joins, Accepts(rpc));
      AttemptsAreWalk(failed, all, n, rpc);
    }

    // The same in terms of the ring's two lists of a key.
    lemma PutAccounting(key: Key, order: seq<NodeId>, joins: NodeId -> Join, accepts: Acceptance)
      requires ValidRing(ring, n) && ring(key).Some?
      requires IsJoinOrder(order, PreferenceList(ring, n, key))
      ensures var acked, failed := AckedNodes(order, joins), FailedNodes(order, joins);
              var preferred := Elements(PreferenceList(ring, n, key));
              var hinted := Placements(failed, HintCandidates(ring, n, key), preferred, accepts);
              && (forall a :: a in acked <==> a in preferred && joins(a) == Ended(Acked))
              && Distinct(acked + Holders(hinted)) && Distinct(acked + Targets(hinted))
              && (forall p :: p in hinted ==>
                    p.0 in preferred && p.1 !in preferred && p.1 in HintCandidates(ring, n, key))
              && |acked| + |hinted| <= n
    {
      CountsApart(ring(key).value, n, order, joins, accepts);
    }

    // Phase one of get: the responses, in the order in which they arrived.
    method ReadPhase(key: Key, order: seq<NodeId>, reachable: NodeId -> bool) returns (responses: seq<Response>)
      requires forall a :: a in order ==> a in replicas
      ensures AreResponses(responses, Reached(order, reachable), key)
    {
      responses := [];
      for i := 0 to |order|
        invariant AreResponses(responses, Reached(order[..i], reachable), key)
      {
        var a := order[i];
        PrefixStep(order, i);
        assert order[..i + 1][..i] == order[..i];
        if reachable(a) {
          var o := replicas[a].Get(key);
          responses := responses + [(a, o)];
        }
      }
      assert order[..|order|] == order;
    }

    // Responses of these nodes, in this order, that say what each node holds.
    ghost predicate AreResponses(responses: seq<Response>, nodes: seq<NodeId>, key: Key)
      reads replicas.Values
    {
      && |responses| == |nodes|
      && forall i :: 0 <= i < |responses| ==>
           responses[i].0 == nodes[i] && nodes[i] in replicas && responses[i].1 == Lookup(replicas[nodes[i]].db, key)
    }

    method Get(key: Key, order: seq<NodeId>, reachable: NodeId -> bool)
      returns (result: GetResult, responses: seq<Response>, repairs: seq<NodeId>)
      requires Valid()
      requires IsJoinOrder(order, PreferenceList(ring, n, key))
      ensures ring(key).None? <==> result.GetRingError?
      // One response for each reachable preferred node, in the order in which they answer.
      ensures AreResponses(responses, Reached(order, reachable), key)
      ensures ring(key).Some? ==>
                result == if |responses| < r then GetQuorumFailed(|responses|, r) else GetOk(Winner(responses))
      // Exactly the responders that lack the winner are sent it.
      ensures repairs == if result.GetOk? && result.winner.Some?
              then Repairs(responses, result.winner.value.timestamp) else []
      // The same told from the ring order, from who answers in which order and from what the replicas hold: a read
      // fails with the number of those reached if they are too few; otherwise it returns the last of the newest, or
      // nothing if no node reached holds the key, and repairs the nodes reached that hold nothing or something older.
      ensures ring(key).Some? ==>
                var held := map a | a in replicas :: Lookup(replicas[a].db, key);
                var reached := set a | a in ring(key).value[..n] && reachable(a);
                && (|reached| < r ==> result == GetQuorumFailed(|reached|, r))
                && (|reached| >= r ==>
                      && result.GetOk?
                      && (forall v :: result.winner == Some(v) <==> IsLastNewest(order, reachable, held, v))
                      && (result.winner.Some? <==> IsHeld(order, reachable, held))
                      && (result.winner.Some? ==>
                            forall a :: a in repairs <==>
                              a in reached && a in held && (held[a].None?
                                  || held[a].value.timestamp < result.winner.value.timestamp)))
                && (|reached| < r || result.winner.None? ==> repairs == [])
                && Distinct(repairs) && InOrder(repairs, order)
    {
      responses, repairs := [], [];
      if ring(key).None? {
        DistinctCount(order);
        assert order == [];
        return GetRingError, [], [];
      }
      assert forall a :: a in order ==> a in Elements(order);
      responses := ReadPhase(key, order, reachable);
      ReachedOnRing(ring(key).value[..n], order, reachable);
      if |responses| < r {
        return GetQuorumFailed(|responses|, r), responses, [];
      }
      var winner := Winner(responses);
      if winner.Some? {
        for i := 0 to |responses|
          invariant repairs == Repairs(responses[..i], winner.value.timestamp)
        {
          if NeedsRepair(responses[i].1, winner.value.timestamp) {
            repairs := repairs + [responses[i].0];
          }
          assert responses[..i + 1][..i] == responses[..i];
        }
        assert responses[..|responses|] == responses;
      }
      result := GetOk(winner);
      ghost var held := map a | a in replicas :: Lookup(replicas[a].db, key);
      GetTold(ring(key).value[..n], order, reachable, held, responses);
    }
  }

  lemma JoinOrderWithin(order: seq<NodeId>, all: seq<NodeId>, n: nat)
    requires n <= |all| && IsJoinOrder(order, all[..n])
    ensures forall a :: a in order ==> a in all
    ensures forall a :: a in all[n..] ==> a in all
  {
    forall a | a in order ensures a in all {
      assert a in Elements(order) && a in all[..n];
    }
  }

  // The tasks split the join order into acknowledged, failed and unknown nodes, each list in that order.
  lemma JoinsSplit(order: seq<NodeId>, joins: NodeId -> Join)
    requires Distinct(order)
    ensures forall a :: a in AckedNodes(order, joins) <==> a in order && joins(a) == Ended(Acked)
    ensures forall a :: a in FailedNodes(order, joins) <==> a in order && joins(a).Ended? && joins(a).rpc != Acked
    ensures Distinct(AckedNodes(order, joins)) && Distinct(FailedNodes(order, joins))
    ensures InOrder(AckedNodes(order, joins), order) && InOrder(FailedNodes(order, joins), order)
    ensures |AckedNodes(order, joins)| + |FailedNodes(order, joins)| <= |order|
  {
    FilterMembers(order, a => joins(a) == Ended(Acked));
    FilterMembers(order, a => joins(a).Ended? && joins(a).rpc != Acked);
    ApartCount(AckedNodes(order, joins), FailedNodes(order, joins), order);
  }

  lemma ApartCount(a: seq<NodeId>, b: seq<NodeId>, whole: seq<NodeId>)
    requires Distinct(a) && Distinct(b) && forall x :: x in a ==> x !in b && x in whole
    requires forall x :: x in b ==> x in whole
    ensures |a| + |b| <= |whole|
  {
    DistinctCount(a);
    DistinctCount(b);
    ElementsCount(whole);
    SubsetCount(Elements(a) + Elements(b), Elements(whole));
    assert Elements(a) !! Elements(b);
  }

  lemma AckedLanded(order: seq<NodeId>, joins: NodeId -> Join)
    requires Distinct(order)
    ensures forall a :: a in AckedNodes(order, joins) ==> a in order && Lands(joins(a))
  {
    JoinsSplit(order, joins);
  }

  lemma HintsAfterStep(before: map<NodeId, Db>, attempts: seq<Pair>, p: Pair, key: Key, v: Versioned,
                       carried: Acceptance)
    ensures forall c :: c in before ==>
              HintsAfter(before[c], c, attempts + [p], key, v, carried)
              == var db := HintsAfter(before[c], c, attempts, key, v, carried);
                 if p.1 == c && carried(p.0, p.1) then db[HintKey(p.0, key) := v] else db
  {
    assert (attempts + [p])[..|attempts|] == attempts;
  }

  lemma DistinctConcat(a: seq<NodeId>, b: seq<NodeId>)
    requires Distinct(a) && Distinct(b) && forall x :: x in a ==> x !in b
    ensures Distinct(a + b)
  {
    var c := a + b;
    forall i, j | 0 <= i < j < |c| ensures c[i] != c[j] {
      if i < |a| <= j {
        assert a[i] in a && b[j - |a|] in b;
      }
    }
  }

  lemma CountedDiffer(acked: seq<NodeId>, failed: seq<NodeId>, hinted: seq<Pair>, preferred: set<NodeId>)
    requires Distinct(acked) && Distinct(failed) && Distinct(Holders(hinted))
    requires forall a :: a in acked ==> a in preferred && a !in failed
    requires forall p :: p in hinted ==> p.1 !in preferred
    requires |hinted| <= |failed| && Targets(hinted) == failed[..|hinted|]
    ensures Distinct(acked + Holders(hinted)) && Distinct(acked + Targets(hinted))
  {
    forall a | a in Holders(hinted) ensures a !in preferred {
      var i :| 0 <= i < |hinted| && Holders(hinted)[i] == a;
      assert hinted[i] in hinted;
    }
    DistinctConcat(acked, Holders(hinted));
    DistinctConcat(acked, failed[..|hinted|]);
  }

  lemma PlacementsOnCandidates(failed: seq<NodeId>, candidates: seq<NodeId>, preferred: set<NodeId>, p: Pair,
                               accepts: Acceptance)
    requires Distinct(candidates) && p in Placements(failed, candidates, preferred, accepts)
    ensures p.0 in failed && p.1 in candidates && p.1 !in preferred
  {
    AcceptedMembers(Attempts(failed, candidates, preferred, accepts), accepts);
    AttemptsDistinct(failed, candidates, preferred, accepts);
  }

  lemma HintedIsKept(db: Db, failed: seq<NodeId>, candidates: seq<NodeId>, preferred: set<NodeId>, p: Pair, key: Key,
                     v: Versioned, rpc: HintRpc)
    requires Distinct(candidates)
    requires p in Placements(failed, candidates, preferred, Accepts(rpc))
    ensures p.1 in candidates
    ensures Lookup(HintsAfter(db, p.1, Attempts(failed, candidates, preferred, Accepts(rpc)), key, v, Arrives(rpc)),
            HintKey(p.0, key)) == Some(v)
  {
    var attempts := Attempts(failed, candidates, preferred, Accepts(rpc));
    AcceptedMembers(attempts, Accepts(rpc));
    AttemptsDistinct(failed, candidates, preferred, Accepts(rpc));
    assert Accepts(rpc)(p.0, p.1);
    assert rpc(p.0, p.1) == Acked;
    assert Arrives(rpc)(p.0, p.1);
    HintIsKept(db, attempts, p, key, v, Arrives(rpc));
  }

  lemma HintedAreKept(before: map<NodeId, Db>, failed: seq<NodeId>, candidates: seq<NodeId>, preferred: set<NodeId>,
                      key: Key, v: Versioned, rpc: HintRpc)
    requires Distinct(candidates) && forall c :: c in candidates ==> c in before
    ensures var attempts := Attempts(failed, candidates, preferred, Accepts(rpc));
            forall p :: p in Accepted(attempts, Accepts(rpc)) ==>
              && p.1 in before
              && Lookup(HintsAfter(before[p.1], p.1, attempts, key, v, Arrives(rpc)), HintKey(p.0, key)) == Some(v)
  {
    forall p | p in Placements(failed, candidates, preferred, Accepts(rpc))
      ensures p.1 in before
      ensures var attempts := Attempts(failed, candidates, preferred, Accepts(rpc));
              Lookup(HintsAfter(before[p.1], p.1, attempts, key, v, Arrives(rpc)), HintKey(p.0, key)) == Some(v)
    {
      PlacementsOnCandidates(failed, candidates, preferred, p, Accepts(rpc));
      HintedIsKept(before[p.1], failed, candidates, preferred, p, key, v, rpc);
    }
  }

  // A hint that a series of attempts stored is there at the end: no later attempt goes to the same node.
  lemma {:induction false} HintIsKept(db: Db, attempts: seq<Pair>, p: Pair, key: Key, v: Versioned, carried: Acceptance)
    requires p in attempts && carried(p.0, p.1)
    requires Distinct(Holders(attempts))
    ensures Lookup(HintsAfter(db, p.1, attempts, key, v, carried), HintKey(p.0, key)) == Some(v)
    decreases |attempts|
  {
    var n := |attempts| - 1;
    var init, last := attempts[..n], attempts[n];
    if last != p {
      assert attempts == init + [last];
      assert forall i :: 0 <= i < n ==> Holders(init)[i] == Holders(attempts)[i];
      HintIsKept(db, init, p, key, v, carried);
      var i :| 0 <= i < n && attempts[i] == p;
      assert Holders(attempts)[i] != Holders(attempts)[n];
    }
  }

  // A failed node whose id has a slash uses up all candidates: no hint is placed for it or for those after it.
  lemma {:induction false} SlashUsesUpCandidates(targets: seq<NodeId>, candidates: seq<NodeId>, preferred: set<NodeId>,
                                                 rpc: HintRpc)
    requires targets != [] && !ValidTarget(targets[0])
    ensures Placements(targets, candidates, preferred, Accepts(rpc)) == []
    decreases |candidates|
  {
    if candidates != [] {
      PlacementsStep(targets, candidates, preferred, Accepts(rpc));
      SlashUsesUpCandidates(targets, candidates[1..], preferred, rpc);
    }
  }

  // The candidates that accept hints for the preferred nodes.
  function Takers(rpc: HintRpc, preferred: set<NodeId>, candidates: seq<NodeId>): seq<NodeId> {
    Willing(candidates, preferred, c => forall t | t in preferred :: Accepts(rpc)(t, c))
  }

  // The acknowledgements of a put in closed form: where a candidate's answer does not depend on the target, the failed
  // nodes and the candidates that take hints are matched one to one until either run out.
  lemma AcksInClosedForm(preferred: set<NodeId>, failed: seq<NodeId>, candidates: seq<NodeId>, rpc: HintRpc)
    requires Elements(failed) <= preferred && IgnoresTarget(preferred, Elements(candidates), preferred, Accepts(rpc))
    ensures |Placements(failed, candidates, preferred, Accepts(rpc))|
            == Min(|failed|, |Takers(rpc, preferred, candidates)|)
  {
    var willing := c => forall t | t in preferred :: Accepts(rpc)(t, c);
    forall t, c | t in failed && c in candidates && c !in preferred ensures Accepts(rpc)(t, c) == willing(c) {
      assert t in Elements(failed) && c in Elements(candidates);
    }
    ClosedForm(failed, candidates, preferred, Accepts(rpc), willing);
  }

  lemma FailedArePreferred(order: seq<NodeId>, preferred: seq<NodeId>, joins: NodeId -> Join)
    requires IsJoinOrder(order, preferred)
    ensures Elements(FailedNodes(order, joins)) <= Elements(preferred)
    ensures forall a :: a in FailedNodes(order, joins) <==>
              a in preferred && (joins(a) == Ended(FailedApplied) || joins(a) == Ended(FailedLost))
  {
    JoinsSplit(order, joins);
    assert forall a :: a in order <==> a in Elements(order);
    assert forall a :: a in preferred <==> a in Elements(preferred);
  }

  lemma HintsInClosedForm(preferred: set<NodeId>, failed: seq<NodeId>, candidates: seq<NodeId>, rpc: HintRpc)
    requires Elements(failed) <= preferred
    ensures IgnoresTarget(preferred, Elements(candidates), preferred, Accepts(rpc))
            ==> |Placements(failed, candidates, preferred, Accepts(rpc))|
                == Min(|failed|, |Takers(rpc, preferred, candidates)|)
  {
    if IgnoresTarget(preferred, Elements(candidates), preferred, Accepts(rpc)) {
      AcksInClosedForm(preferred, failed, candidates, rpc);
    }
  }

  // The preferred nodes have no slash in their ids, and a candidate's answer to a hint request does not depend on the
  // target.
  ghost predicate AnswersAs(rpc: HintRpc, preferred: set<NodeId>, hosts: set<NodeId>, willing: NodeId -> bool) {
    && (forall t :: t in preferred ==> ValidTarget(t))
    && forall t, c :: t in preferred && c in hosts && c !in preferred ==> (rpc(t, c) == Acked <==> willing(c))
  }

  // A store refuses targets with a slash. Where the preferred nodes have none in their ids and a candidate's answer
  // does not depend on the target, the takers are the willing candidates ...
  lemma TakersAreWilling(preferred: set<NodeId>, candidates: seq<NodeId>, rpc: HintRpc, willing: NodeId -> bool)
    requires preferred != {} && AnswersAs(rpc, preferred, Elements(candidates), willing)
    ensures IgnoresTarget(preferred, Elements(candidates), preferred, Accepts(rpc))
    ensures Takers(rpc, preferred, candidates) == Willing(candidates, preferred, willing)
  {
    var t :| t in preferred;
    forall c | c in candidates && c !in preferred
      ensures (forall t' | t' in preferred :: Accepts(rpc)(t', c)) <==> willing(c)
    {
      assert Accepts(rpc)(t, c) <==> rpc(t, c) == Acked;
    }
    SameWilling(candidates, preferred, c => forall t | t in preferred :: Accepts(rpc)(t, c), willing);
  }

  lemma {:induction false} SameWilling(candidates: seq<NodeId>, preferred: set<NodeId>, f: NodeId -> bool,
                                       g: NodeId -> bool)
    requires forall c :: c in candidates && c !in preferred ==> (f(c) <==> g(c))
    ensures Willing(candidates, preferred, f) == Willing(candidates, preferred, g)
  {
    if candidates != [] {
      SameWilling(candidates[1..], preferred, f, g);
    }
  }

  // ... and the put succeeds if and only if the acknowledgements and min(failed nodes, willing candidates) together
  // reach w, which no other way of placing the hints could do better.
  lemma PutSucceedsIff(w: nat, preferred: set<NodeId>, acked: seq<NodeId>, failed: seq<NodeId>,
                       candidates: seq<NodeId>, rpc: HintRpc, willing: NodeId -> bool)
    requires Elements(failed) <= preferred && AnswersAs(rpc, preferred, Elements(candidates), willing)
    ensures |acked| + |Placements(failed, candidates, preferred, Accepts(rpc))| >= w
            <==> |acked| + Min(|failed|, |Willing(candidates, preferred, willing)|) >= w
    ensures Optimal(failed, candidates, preferred, Accepts(rpc))
  {
    if failed == [] {
      assert IgnoresTarget(preferred, Elements(candidates), preferred, Accepts(rpc));
    } else {
      assert failed[0] in Elements(failed);
      TakersAreWilling(preferred, candidates, rpc, willing);
    }
    AcksInClosedForm(preferred, failed, candidates, rpc);
    GreedyIsOptimal(failed, candidates, preferred, Accepts(rpc));
  }
}
