// Runs put together from pieces.
module Runs {
  import opened Cluster

  // Steps that lead from one state to another.
  ghost predicate Leads(c: Config, s: State, steps: seq<Step>, t: State) {
    exists states :: Path(c, states, steps) && states[0] == s && states[|steps|] == t
  }

  lemma One(c: Config, s: State, step: Step, t: State)
    requires Enabled(c, s, step) && Next(c, s, step) == t
    ensures Leads(c, s, [step], t)
  {
    assert Path(c, [s, t], [step]);
  }

  lemma Then(c: Config, s: State, a: seq<Step>, t: State, b: seq<Step>, u: State)
    requires Leads(c, s, a, t) && Leads(c, t, b, u)
    ensures Leads(c, s, a + b, u)
  {
    var x :| Path(c, x, a) && x[0] == s && x[|a|] == t;
    var y :| Path(c, y, b) && y[0] == t && y[|b|] == u;
    JoinPaths(c, x, a, y, b);
  }

  lemma JoinPaths(c: Config, x: seq<State>, a: seq<Step>, y: seq<State>, b: seq<Step>)
    requires Path(c, x, a) && Path(c, y, b) && x[|a|] == y[0]
    ensures var z := x + y[1..];
            Path(c, z, a + b) && z[0] == x[0] && z[|a + b|] == y[|b|]
  {
    var z, steps := x + y[1..], a + b;
    forall i | 0 <= i < |steps| ensures Enabled(c, z[i], steps[i]) && z[i + 1] == Next(c, z[i], steps[i]) {
      if i < |a| {
        assert z[i] == x[i] && z[i + 1] == x[i + 1] && steps[i] == a[i];
      } else {
        assert z[i] == y[i - |a|] && z[i + 1] == y[i - |a| + 1] && steps[i] == b[i - |a|];
      }
    }
  }

  lemma Nothing(c: Config, s: State)
    ensures Leads(c, s, [], s)
  {
    assert Path(c, [s], []);
  }
}
