// What becomes of one key when versioned writes are not atomic: each first checks what is stored and later writes, and
// other writes may land in between.
module TornWrites {
  import opened Types
  import opened Lww

  // Every writer that has checked: with the version that it is about to write, or with nothing left to do.
  datatype Cell = Cell(current: Option<Versioned>, writers: map<nat, Option<Versioned>>)

  datatype Step = Check(w: nat, v: Versioned) | Land(w: nat)

  predicate Enabled(s: Cell, step: Step) {
    match step
    case Check(w, _) => w !in s.writers
    case Land(w) => w in s.writers && s.writers[w].Some?
  }

  function Next(s: Cell, step: Step): Cell
    requires Enabled(s, step)
  {
    match step
    case Check(w, v) => s.(writers := s.writers[w := if AtLeast(s.current, v.timestamp) then None else Some(v)])
    case Land(w) => Cell(s.writers[w], s.writers[w := None])
  }

  ghost predicate IsRun(cells: seq<Cell>, steps: seq<Step>) {
    && |cells| == |steps| + 1 && cells[0].writers == map[]
    && forall i :: 0 <= i < |steps| ==> Enabled(cells[i], steps[i]) && cells[i + 1] == Next(cells[i], steps[i])
  }

  // Undisturbed, check and write together are the merge.
  lemma UndisturbedIsMerge(s: Cell, w: nat, v: Versioned)
    requires w !in s.writers
    ensures var t := Next(s, Check(w, v));
            (if Enabled(t, Land(w)) then Next(t, Land(w)) else t).current == Some(Merge(s.current, v))
  {
  }

  // A step after which the key holds an older version than before.
  predicate Drops(s: Cell, step: Step)
    requires Enabled(s, step)
  {
    s.current.Some? && !AtLeast(Next(s, step).current, s.current.value.timestamp)
  }

  predicate LandsAt(cells: seq<Cell>, steps: seq<Step>, i: nat, v: Versioned) {
    i < |steps| && i < |cells| && steps[i].Land? && steps[i].w in cells[i].writers
        && cells[i].writers[steps[i].w] == Some(v)
  }

  // A writer checks at i and lands at j, and in between a newer version lands.
  ghost predicate Overtaken(cells: seq<Cell>, steps: seq<Step>, i: nat, m: nat, j: nat) {
    && i < m < j < |steps| && steps[i].Check? && steps[j] == Land(steps[i].w)
    && exists u :: LandsAt(cells, steps, m, u) && u.timestamp > steps[i].v.timestamp
  }

  // A writer lands what it checked.
  lemma {:induction false} LandsWhatWasChecked(cells: seq<Cell>, steps: seq<Step>, i: nat, j: nat)
    requires IsRun(cells, steps) && i < j < |cells| && steps[i].Check?
    ensures steps[i].w in cells[j].writers
    ensures cells[j].writers[steps[i].w].Some? ==>
            cells[j].writers[steps[i].w] == Some(steps[i].v) && !AtLeast(cells[i].current, steps[i].v.timestamp)
  {
    if i + 1 < j {
      LandsWhatWasChecked(cells, steps, i, j - 1);
      assert Enabled(cells[j - 1], steps[j - 1]);
    }
  }

  lemma {:induction false} CheckedBefore(cells: seq<Cell>, steps: seq<Step>, j: nat, w: nat) returns (i: nat)
    requires IsRun(cells, steps) && j < |cells| && w in cells[j].writers
    ensures i < j && steps[i].Check? && steps[i].w == w
  {
    if w in cells[j - 1].writers {
      i := CheckedBefore(cells, steps, j - 1, w);
    } else {
      i := j - 1;
    }
  }

  // If the key has come to hold more than a timestamp it did not hold before, something newer has landed meanwhile.
  lemma {:induction false} NewerLanded(cells: seq<Cell>, steps: seq<Step>, i: nat, j: nat, ts: nat)
    returns (m: nat, u: Versioned)
    requires IsRun(cells, steps) && i <= j < |cells|
    requires !AtLeast(cells[i].current, ts) && AtLeast(cells[j].current, ts)
    ensures i <= m < j && LandsAt(cells, steps, m, u) && u.timestamp >= ts
  {
    if AtLeast(cells[j - 1].current, ts) {
      m, u := NewerLanded(cells, steps, i, j - 1, ts);
    } else {
      m, u := j - 1, cells[j].current.value;
    }
  }

  lemma DropIsOvertaken(cells: seq<Cell>, steps: seq<Step>, j: nat) returns (i: nat, m: nat)
    requires IsRun(cells, steps) && j < |steps| && Drops(cells[j], steps[j])
    ensures Overtaken(cells, steps, i, m, j)
  {
    var v := cells[j + 1].current.value;
    i := CheckedBefore(cells, steps, j, steps[j].w);
    LandsWhatWasChecked(cells, steps, i, j);
    var u;
    m, u := NewerLanded(cells, steps, i, j, v.timestamp + 1);
    assert steps[i].Check? && steps[m].Land?;
  }

  lemma {:induction false} NoDropKeeps(cells: seq<Cell>, steps: seq<Step>, i: nat, j: nat, ts: nat)
    requires IsRun(cells, steps) && i <= j < |cells| && AtLeast(cells[i].current, ts)
    requires forall l :: i <= l < j ==> !Drops(cells[l], steps[l])
    ensures AtLeast(cells[j].current, ts)
  {
    if i < j {
      NoDropKeeps(cells, steps, i, j - 1, ts);
      assert !Drops(cells[j - 1], steps[j - 1]);
    }
  }

  lemma OvertakenDrops(cells: seq<Cell>, steps: seq<Step>, i: nat, m: nat, j: nat)
    requires IsRun(cells, steps) && Overtaken(cells, steps, i, m, j)
    ensures exists l :: m < l <= j && Drops(cells[l], steps[l])
  {
    var u :| LandsAt(cells, steps, m, u) && u.timestamp > steps[i].v.timestamp;
    assert Enabled(cells[m], steps[m]) && AtLeast(cells[m + 1].current, u.timestamp);
    assert Enabled(cells[j], steps[j]);
    LandsWhatWasChecked(cells, steps, i, j);
    if forall l :: m < l < j ==> !Drops(cells[l], steps[l]) {
      NoDropKeeps(cells, steps, m + 1, j, u.timestamp);
      assert Drops(cells[j], steps[j]);
    }
  }

  // The exact condition: over a run the key's timestamp never drops if and only if no writer is overtaken by a newer
  // version between its check and its write.
  lemma MonotoneIffNoneOvertaken(cells: seq<Cell>, steps: seq<Step>)
    requires IsRun(cells, steps)
    ensures (forall l :: 0 <= l < |steps| ==> !Drops(cells[l], steps[l]))
            <==> forall i, m, j :: !Overtaken(cells, steps, i, m, j)
  {
    if l :| 0 <= l < |steps| && Drops(cells[l], steps[l]) {
      var i, m := DropIsOvertaken(cells, steps, l);
    }
    if i, m, j :| Overtaken(cells, steps, i, m, j) {
      OvertakenDrops(cells, steps, i, m, j);
    }
  }

  // Such a run: the older of two writers checks first and writes last.
  lemma OlderWritesLast(older: Versioned, newer: Versioned)
    requires older.timestamp < newer.timestamp
    ensures var steps := [Check(0, older), Check(1, newer), Land(1), Land(0)];
            exists cells: seq<Cell> :: IsRun(cells, steps) && cells[0].current.None? && cells[3].current == Some(newer)
                && cells[4].current == Some(older)
  {
    var c0 := Cell(None, map[]);
    var c1 := Next(c0, Check(0, older));
    var c2 := Next(c1, Check(1, newer));
    var c3 := Next(c2, Land(1));
    var c4 := Next(c3, Land(0));
    assert IsRun([c0, c1, c2, c3, c4], [Check(0, older), Check(1, newer), Land(1), Land(0)]);
  }
}
