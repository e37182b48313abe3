// The quorum condition w + r > n is not only enough but exactly what visibility needs.
module QuorumExact {
  import opened Types
  import opened Lww
  import opened Coordinator
  import opened Cluster
  import opened ClusterTheorems
  import opened HintSafety
  import opened Runs

  // No wipes and no hints stored.
  ghost predicate Quiet(steps: seq<Step>) {
    forall i :: 0 <= i < |steps| ==> !steps[i].Wipe? && !steps[i].ServeHint?
  }

  // A put that returned Ok, whose hints are drained after orderly steps only, and a get that starts later and succeeds;
  // no node that the put counts was wiped after it had the write.
  ghost predicate PutThenGet(c: Config, states: seq<State>, steps: seq<Step>, i: nat, j: nat, p: nat, g: nat) {
    && IsRun(c, states, steps) && i <= j < |states|
    && p in states[i].puts && states[i].puts[p].result == Some(PutOk)
    && (forall slot :: HintsOn(c, states[i].puts[p], slot) ==>
         slot !in states[i].hints && OrderlyUpTo(states, steps, i, slot))
    && CountedStand(states, steps, i, j, p)
    && g !in states[i].gets && Returned(states[j], g, states[i].puts[p].key)
  }

  ghost predicate AlwaysVisible(c: Config) {
    forall states: seq<State>, steps: seq<Step>, i: nat, j: nat, p: nat,
        g: nat | PutThenGet(c, states, steps, i, j, p, g) ::
      AtLeast(Result(states[j], g, states[i].puts[p].key), states[i].puts[p].value.timestamp)
  }

  // --- a run that slips through a quorum too small ---

  // The put has `acks` acknowledgements and, after them in the preference list, `fails` failed nodes; `cursor`
  // candidates have refused its hints. Nobody else holds the key.
  ghost predicate Writing(c: Config, s: State, key: Key, acks: nat, fails: nat, cursor: nat) {
    var preferred := Preferred(c, key);
    && acks + fails <= |preferred| && cursor <= |Candidates(c, key)|
    && s.gets == map[] && s.hints == map[] && 0 in s.puts
    && s.puts[0] == PutOp(key, Versioned(0, []), Elements(preferred[..acks]), preferred[acks..acks + fails], {},
         cursor, false, [], None)
    && (forall a :: a in preferred ==> Request(0, s.puts[0], a) in s.writes)
    && (forall a :: a in preferred[..acks] ==> Request(0, s.puts[0], a) in s.standing)
    && (forall a :: Place(a, key) in s.replicas ==> a in preferred[..acks])
  }

  lemma PutBegins(c: Config, key: Key) returns (t: State)
    requires ValidConfig(c) && c.ring(key).Some?
    ensures Leads(c, INIT, [StartPut(0, key, Versioned(0, []))], t) && Writing(c, t, key, 0, 0, 0)
  {
    t := Next(c, INIT, StartPut(0, key, Versioned(0, [])));
    One(c, INIT, StartPut(0, key, Versioned(0, [])), t);
    assert Elements(Preferred(c, key)[..0]) == {} && Preferred(c, key)[0..0] == [];
  }

  lemma NextInPrefix(s: seq<NodeId>, i: nat, j: nat)
    requires Distinct(s) && i <= j < |s|
    ensures s[i..j + 1] == s[i..j] + [s[j]] && s[j] !in s[i..j]
  {
  }

  // The next node has carried the write out and its acknowledgement is on the way.
  ghost predicate Acking(c: Config, s: State, key: Key, i: nat) {
    var preferred := Preferred(c, key);
    && i < |preferred| && 0 in s.puts && Request(0, s.puts[0], preferred[i]) in s.served * s.standing
    && Writing(c, s.(replicas := map e | e in s.replicas && e != Place(preferred[i], key) :: s.replicas[e]),
         key, i, 0, 0)
  }

  lemma ServeOne(c: Config, s: State, key: Key, i: nat) returns (t: State)
    requires ValidConfig(c) && c.ring(key).Some? && Writing(c, s, key, i, 0, 0) && i < c.n
    ensures Leads(c, s, [ServeWrite(Request(0, s.puts[0], Preferred(c, key)[i]))], t) && Acking(c, t, key, i)
  {
    var m := Request(0, s.puts[0], Preferred(c, key)[i]);
    t := Next(c, s, ServeWrite(m));
    One(c, s, ServeWrite(m), t);
  }

  lemma CountOne(c: Config, s: State, key: Key, i: nat) returns (t: State)
    requires ValidConfig(c) && c.ring(key).Some? && Acking(c, s, key, i) && i < c.n
    ensures Leads(c, s, [WriteAcked(0, Preferred(c, key)[i])], t) && Writing(c, t, key, i + 1, 0, 0)
  {
    var preferred := Preferred(c, key);
    var a := preferred[i];
    NextInPrefix(preferred, 0, i);
    assert preferred[0..i] == preferred[..i] && preferred[0..i + 1] == preferred[..i + 1];
    assert preferred[i..i] == [] && preferred[i + 1..i + 1] == [];
    assert a in preferred && Undecided(c, s.puts[0], a);
    t := Next(c, s, WriteAcked(0, a));
    One(c, s, WriteAcked(0, a), t);
  }

  lemma AckOne(c: Config, s: State, key: Key, i: nat) returns (steps: seq<Step>, t: State)
    requires ValidConfig(c) && c.ring(key).Some? && Writing(c, s, key, i, 0, 0) && i < c.n
    ensures Leads(c, s, steps, t) && Quiet(steps) && Writing(c, t, key, i + 1, 0, 0)
  {
    var a := Preferred(c, key)[i];
    var m := Request(0, s.puts[0], a);
    var mid := ServeOne(c, s, key, i);
    t := CountOne(c, mid, key, i);
    Then(c, s, [ServeWrite(m)], mid, [WriteAcked(0, a)], t);
    steps := [ServeWrite(m)] + [WriteAcked(0, a)];
  }

  lemma {:induction false} Acks(c: Config, s: State, key: Key, i: nat) returns (steps: seq<Step>, t: State)
    requires ValidConfig(c) && c.ring(key).Some? && Writing(c, s, key, 0, 0, 0) && i <= c.n
    ensures Leads(c, s, steps, t) && Quiet(steps) && Writing(c, t, key, i, 0, 0)
  {
    if i == 0 {
      steps, t := [], s;
      Nothing(c, s);
    } else {
      var before, mid := Acks(c, s, key, i - 1);
      var next;
      next, t := AckOne(c, mid, key, i - 1);
      steps := before + next;
      Then(c, s, before, mid, next, t);
    }
  }

  lemma FailOne(c: Config, s: State, key: Key, acks: nat, i: nat) returns (t: State)
    requires ValidConfig(c) && c.ring(key).Some? && Writing(c, s, key, acks, i, 0) && acks + i < c.n
    ensures Leads(c, s, [WriteFailed(0, Preferred(c, key)[acks + i])], t) && Writing(c, t, key, acks, i + 1, 0)
  {
    var preferred := Preferred(c, key);
    var a := preferred[acks + i];
    NextInPrefix(preferred, acks, acks + i);
    NextInPrefix(preferred, 0, acks + i);
    assert a in preferred && a !in preferred[..acks] by {
      assert forall x :: x in preferred[..acks] ==> x in preferred[0..acks + i];
    }
    assert Undecided(c, s.puts[0], a);
    t := Next(c, s, WriteFailed(0, a));
    One(c, s, WriteFailed(0, a), t);
  }

  lemma {:induction false} Failures(c: Config, s: State, key: Key, acks: nat, i: nat)
    returns (steps: seq<Step>, t: State)
    requires ValidConfig(c) && c.ring(key).Some? && Writing(c, s, key, acks, 0, 0) && acks + i <= c.n
    ensures Leads(c, s, steps, t) && Quiet(steps) && Writing(c, t, key, acks, i, 0)
  {
    if i == 0 {
      steps, t := [], s;
      Nothing(c, s);
    } else {
      var before, mid := Failures(c, s, key, acks, i - 1);
      t := FailOne(c, mid, key, acks, i - 1);
      steps := before + [WriteFailed(0, Preferred(c, key)[acks + i - 1])];
      Then(c, s, before, mid, [WriteFailed(0, Preferred(c, key)[acks + i - 1])], t);
    }
  }

  lemma AllDecided(c: Config, s: State, key: Key, acks: nat, cursor: nat)
    requires ValidConfig(c) && c.ring(key).Some? && acks <= c.n && Writing(c, s, key, acks, c.n - acks, cursor)
    ensures InHintPhase(c, s.puts[0]) && |s.puts[0].failed| == c.n - acks
  {
    var preferred := Preferred(c, key);
    forall a | a in preferred ensures !Undecided(c, s.puts[0], a) {
      assert preferred == preferred[..acks] + preferred[acks..acks + (c.n - acks)];
    }
  }

  // The next candidate is asked ...
  lemma AskOne(c: Config, s: State, key: Key, acks: nat, cursor: nat) returns (t: State)
    requires ValidConfig(c) && c.ring(key).Some? && acks < c.n && Writing(c, s, key, acks, c.n - acks, cursor)
             && cursor < |Candidates(c, key)|
    ensures Leads(c, s, [TryCandidate(0)], t) && 0 in t.puts && AwaitsHint(c, t.puts[0])
    ensures t == s.(puts := s.puts[0 := s.puts[0].(cursor := cursor + 1, waiting := true)], hintMsgs := t.hintMsgs)
  {
    AllDecided(c, s, key, acks, cursor);
    RingSplits(c, key);
    assert Candidates(c, key)[cursor] in Elements(Candidates(c, key));
    assert Candidates(c, key)[cursor] !in Preferred(c, key);
    t := Next(c, s, TryCandidate(0));
    One(c, s, TryCandidate(0), t);
  }

  // ... and refuses.
  lemma RefuseOne(c: Config, s: State, key: Key, acks: nat, cursor: nat) returns (steps: seq<Step>, t: State)
    requires ValidConfig(c) && c.ring(key).Some? && acks < c.n && Writing(c, s, key, acks, c.n - acks, cursor)
             && cursor < |Candidates(c, key)|
    ensures Leads(c, s, steps, t) && Quiet(steps) && Writing(c, t, key, acks, c.n - acks, cursor + 1)
  {
    var mid := AskOne(c, s, key, acks, cursor);
    t := Next(c, mid, HintFailed(0));
    One(c, mid, HintFailed(0), t);
    Then(c, s, [TryCandidate(0)], mid, [HintFailed(0)], t);
    steps := [TryCandidate(0)] + [HintFailed(0)];
  }

  lemma {:induction false} Refusals(c: Config, s: State, key: Key, acks: nat, cursor: nat)
    returns (steps: seq<Step>, t: State)
    requires ValidConfig(c) && c.ring(key).Some? && acks < c.n && Writing(c, s, key, acks, c.n - acks, 0)
             && cursor <= |Candidates(c, key)|
    ensures Leads(c, s, steps, t) && Quiet(steps) && Writing(c, t, key, acks, c.n - acks, cursor)
  {
    if cursor == 0 {
      steps, t := [], s;
      Nothing(c, s);
    } else {
      var before, mid := Refusals(c, s, key, acks, cursor - 1);
      var next;
      next, t := RefuseOne(c, mid, key, acks, cursor - 1);
      steps := before + next;
      Then(c, s, before, mid, next, t);
    }
  }

  // The put is over, with no hint in play; the get has `i` empty responses and has read `k` nodes, all of them among
  // the first w + k.
  ghost predicate Reading(c: Config, s: State, key: Key, i: nat, k: nat) {
    && i <= k && c.w + k <= |Preferred(c, key)| && 0 in s.gets
    && (forall a :: Place(a, key) in s.replicas ==> a in Preferred(c, key)[..c.w])
    && s.gets[0].key == key && s.gets[0].result.None? && |s.gets[0].responses| == i
    && (forall a :: a in s.gets[0].seen ==> s.gets[0].seen[a].None? && a in Preferred(c, key)[..c.w + k])
    && forall m :: 0 <= m < i ==>
         s.gets[0].responses[m].1.None? && s.gets[0].responses[m].0 in Preferred(c, key)[..c.w + i]
  }

  ghost predicate Written(c: Config, s: State, key: Key) {
    && s.gets == map[] && s.hints == map[] && 0 in s.puts && s.puts[0].key == key && s.puts[0].value == Versioned(0, [])
    && s.puts[0].result == Some(PutOk) && s.puts[0].hintedAt == []
    && c.w <= |Preferred(c, key)| && s.puts[0].acked == Elements(Preferred(c, key)[..c.w])
    && (forall a :: a in s.puts[0].acked ==> Request(0, s.puts[0], a) in s.standing)
    && forall a :: Place(a, key) in s.replicas ==> a in Preferred(c, key)[..c.w]
  }

  lemma PutEnds(c: Config, s: State, key: Key, cursor: nat) returns (t: State)
    requires ValidConfig(c) && c.ring(key).Some? && c.w <= c.n && Writing(c, s, key, c.w, c.n - c.w, cursor)
    requires c.w < c.n ==> cursor == |Candidates(c, key)|
    ensures Leads(c, s, [FinishPut(0)], t) && Written(c, t, key)
  {
    AllDecided(c, s, key, c.w, cursor);
    DistinctCount(Preferred(c, key)[..c.w]);
    t := Next(c, s, FinishPut(0));
    One(c, s, FinishPut(0), t);
  }

  lemma GetBegins(c: Config, s: State, key: Key) returns (t: State)
    requires ValidConfig(c) && c.ring(key).Some? && Written(c, s, key)
    ensures Leads(c, s, [StartGet(0, key)], t) && Reading(c, t, key, 0, 0)
  {
    t := Next(c, s, StartGet(0, key));
    One(c, s, StartGet(0, key), t);
  }

  lemma NotBefore(s: seq<NodeId>, i: nat, j: nat)
    requires Distinct(s) && i <= j < |s|
    ensures s[j] !in s[..i] && forall a :: a in s[..i] ==> a in s[..j + 1]
  {
  }

  lemma ReadNext(c: Config, s: State, key: Key, i: nat) returns (t: State)
    requires ValidConfig(c) && c.ring(key).Some? && Reading(c, s, key, i, i) && c.w + i < c.n
    ensures var a := Preferred(c, key)[c.w + i];
            Leads(c, s, [ReadReplica(0, a)], t) && Reading(c, t, key, i, i + 1) && a in t.gets[0].seen
  {
    var a := Preferred(c, key)[c.w + i];
    NotBefore(Preferred(c, key), c.w, c.w + i);
    NotBefore(Preferred(c, key), c.w + i, c.w + i);
    assert a in Preferred(c, key) && Entry(s, a, key).None?;
    var op := GetNext(c, s.gets[0], ReadReplica(0, a), None);
    assert a in Preferred(c, key)[..c.w + (i + 1)] by {
      assert Preferred(c, key)[..c.w + (i + 1)][c.w + i] == a;
    }
    t := s.(gets := s.gets[0 := op]);
    One(c, s, ReadReplica(0, a), t);
  }

  lemma RespondNext(c: Config, s: State, key: Key, i: nat) returns (t: State)
    requires ValidConfig(c) && c.ring(key).Some? && Reading(c, s, key, i, i + 1) && c.w + i < c.n
    requires Preferred(c, key)[c.w + i] in s.gets[0].seen
    ensures Leads(c, s, [Respond(0, Preferred(c, key)[c.w + i])], t) && Reading(c, t, key, i + 1, i + 1)
  {
    var a := Preferred(c, key)[c.w + i];
    NotBefore(Preferred(c, key), c.w + i, c.w + i);
    forall m | 0 <= m < i
      ensures s.gets[0].responses[m].0 != a && s.gets[0].responses[m].0 in Preferred(c, key)[..c.w + (i + 1)]
    {
    }
    var op := GetNext(c, s.gets[0], Respond(0, a), None);
    t := s.(gets := s.gets[0 := op]);
    One(c, s, Respond(0, a), t);
  }

  lemma ReadOne(c: Config, s: State, key: Key, i: nat) returns (steps: seq<Step>, t: State)
    requires ValidConfig(c) && c.ring(key).Some? && Reading(c, s, key, i, i) && c.w + i < c.n
    ensures Leads(c, s, steps, t) && Quiet(steps) && Reading(c, t, key, i + 1, i + 1)
  {
    var a := Preferred(c, key)[c.w + i];
    var mid := ReadNext(c, s, key, i);
    t := RespondNext(c, mid, key, i);
    Then(c, s, [ReadReplica(0, a)], mid, [Respond(0, a)], t);
    steps := [ReadReplica(0, a)] + [Respond(0, a)];
  }

  lemma {:induction false} Reads(c: Config, s: State, key: Key, i: nat) returns (steps: seq<Step>, t: State)
    requires ValidConfig(c) && c.ring(key).Some? && Reading(c, s, key, 0, 0) && c.w + i <= c.n
    ensures Leads(c, s, steps, t) && Quiet(steps) && Reading(c, t, key, i, i)
  {
    if i == 0 {
      steps, t := [], s;
      Nothing(c, s);
    } else {
      var before, mid := Reads(c, s, key, i - 1);
      var next;
      next, t := ReadOne(c, mid, key, i - 1);
      steps := before + next;
      Then(c, s, before, mid, next, t);
    }
  }

  lemma GetEnds(c: Config, s: State, key: Key) returns (t: State)
    requires Reading(c, s, key, c.r, c.r)
    ensures Leads(c, s, [FinishGet(0)], t) && Returned(t, 0, key) && Result(t, 0, key).None?
  {
    t := Next(c, s, FinishGet(0));
    One(c, s, FinishGet(0), t);
    WinnerAbsent(s.gets[0].responses);
  }

  // All write tasks end: w acknowledgements, the rest failures.
  lemma TasksEnd(c: Config, s: State, key: Key) returns (steps: seq<Step>, t: State)
    requires ValidConfig(c) && c.ring(key).Some? && c.w <= c.n && Writing(c, s, key, 0, 0, 0)
    ensures Leads(c, s, steps, t) && Quiet(steps) && Writing(c, t, key, c.w, c.n - c.w, 0)
  {
    var acks, mid := Acks(c, s, key, c.w);
    var failures;
    failures, t := Failures(c, mid, key, c.w, c.n - c.w);
    Then(c, s, acks, mid, failures, t);
    steps := acks + failures;
  }

  // All candidates refuse, and yet the put returns Ok.
  lemma NobodyHints(c: Config, s: State, key: Key) returns (steps: seq<Step>, t: State)
    requires ValidConfig(c) && c.ring(key).Some? && c.w <= c.n && Writing(c, s, key, c.w, c.n - c.w, 0)
    ensures Leads(c, s, steps, t) && Quiet(steps) && Written(c, t, key)
  {
    if c.w == c.n {
      t := PutEnds(c, s, key, 0);
      steps := [FinishPut(0)];
    } else {
      var refusals, mid := Refusals(c, s, key, c.w, |Candidates(c, key)|);
      t := PutEnds(c, mid, key, |Candidates(c, key)|);
      Then(c, s, refusals, mid, [FinishPut(0)], t);
      steps := refusals + [FinishPut(0)];
    }
  }

  // The put's half of the run.
  lemma WriteHalf(c: Config, key: Key) returns (steps: seq<Step>, t: State)
    requires ValidConfig(c) && c.ring(key).Some? && c.w <= c.n
    ensures Leads(c, INIT, steps, t) && Quiet(steps) && Written(c, t, key)
  {
    var s1 := PutBegins(c, key);
    var tasks, s2 := TasksEnd(c, s1, key);
    var rest;
    rest, t := NobodyHints(c, s2, key);
    Then(c, INIT, [StartPut(0, key, Versioned(0, []))], s1, tasks, s2);
    Then(c, INIT, [StartPut(0, key, Versioned(0, []))] + tasks, s2, rest, t);
    steps := [StartPut(0, key, Versioned(0, []))] + tasks + rest;
  }

  // The get's half.
  lemma ReadHalf(c: Config, s: State, key: Key) returns (steps: seq<Step>, t: State)
    requires ValidConfig(c) && c.ring(key).Some? && c.w + c.r <= c.n && Written(c, s, key)
    ensures Leads(c, s, steps, t) && Quiet(steps) && Returned(t, 0, key) && Result(t, 0, key).None?
  {
    var s1 := GetBegins(c, s, key);
    var asked, s2 := Reads(c, s1, key, c.r);
    t := GetEnds(c, s2, key);
    Then(c, s, [StartGet(0, key)], s1, asked, s2);
    Then(c, s, [StartGet(0, key)] + asked, s2, [FinishGet(0)], t);
    steps := [StartGet(0, key)] + asked + [FinishGet(0)];
  }

  lemma Missed(c: Config, key: Key, first: seq<Step>, mid: State, second: seq<Step>, end: State)
    requires Leads(c, INIT, first, mid) && Quiet(first) && Written(c, mid, key)
    requires Leads(c, mid, second, end) && Quiet(second) && Returned(end, 0, key) && Result(end, 0, key).None?
    ensures !AlwaysVisible(c)
  {
    var x :| Path(c, x, first) && x[0] == INIT && x[|first|] == mid;
    var y :| Path(c, y, second) && y[0] == mid && y[|second|] == end;
    JoinPaths(c, x, first, y, second);
    var states, steps := x + y[1..], first + second;
    assert states[|first|] == mid && states[|steps|] == end;
    assert CountedStand(states, steps, |first|, |steps|, 0) by {
      assert HintedTargets(mid.puts[0]) == {};
      assert mid.puts[0].acked == Holding(mid, 0);
    }
    assert PutThenGet(c, states, steps, |first|, |steps|, 0, 0);
  }

  lemma SlipsThrough(c: Config, key: Key)
    requires ValidConfig(c) && c.ring(key).Some? && c.w + c.r <= c.n
    ensures !AlwaysVisible(c)
  {
    var first, mid := WriteHalf(c, key);
    var second, end := ReadHalf(c, mid, key);
    Missed(c, key, first, mid, second, end);
  }

  // A put that returned Ok is visible to every later successful get, in every run in which its hints were drained in
  // order and no node that it counts was wiped, if and only if w + r > n.
  lemma QuorumConditionIsExact(c: Config)
    requires ValidConfig(c) && exists key :: c.ring(key).Some?
    ensures AlwaysVisible(c) <==> c.w + c.r > c.n
  {
    if c.w + c.r > c.n {
      forall states: seq<State>, steps: seq<Step>, i: nat, j: nat, p: nat,
          g: nat | PutThenGet(c, states, steps, i, j, p, g)
        ensures AtLeast(Result(states[j], g, states[i].puts[p].key), states[i].puts[p].value.timestamp)
      {
        DrainedPutIsVisible(c, states, steps, i, j, p, g);
      }
    } else {
      var key :| c.ring(key).Some?;
      SlipsThrough(c, key);
    }
  }
}
