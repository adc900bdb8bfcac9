/** Address spaces over whole runs of create, map, unmap and destroy, with stores to memory in
    between.  The effects are those that the methods of vmm.c's model guarantee. */
module VmRuns {
  import opened Memory
  import opened Pages
  import opened PageTables
  import opened Words

  datatype State = State(m: seq<byte>, tables: Tables)

  datatype Op =
    | Create(c: Frame)
    | Remap(r: Frame, v0: nat, n: nat, what: Meaning)   // vmm_map_range and vmm_unmap
    | Destroy(c: Frame)
    | Store                                             // to memory outside the tables

  ghost predicate Effect(kernel: Frame, s: State, op: Op, s': State) {
    Tree(s.m, s.tables) && Tree(s'.m, s'.tables) &&
    match op
    case Create(c) => Created(s.m, s.tables, s'.m, s'.tables, kernel, c)
    case Remap(r, v0, n, what) =>
      && IsRoot(s.tables, r)
      && Framed(s.m, s.tables, s'.m, s'.tables, r)
      && Remapped(s.m, s.tables, s'.m, r, v0, n, what)
    case Destroy(c) => c != kernel && Destroyed(s.m, s.tables, s'.m, s'.tables, c)
    case Store => s'.tables == s.tables && SameTables(s.m, s'.m, s.tables)
  }

  ghost predicate IsRun(kernel: Frame, states: seq<State>, ops: seq<Op>) {
    && |states| == |ops| + 1
    && (forall i :: 0 <= i < |ops| ==> Effect(kernel, states[i], ops[i], states[i + 1]))
  }

  /** The space is there in every state of the run. */
  ghost predicate Alive(states: seq<State>, a: Frame) {
    forall i :: 0 <= i < |states| ==> IsRoot(states[i].tables, a)
  }

  /** No map or unmap of the run was for space a. */
  ghost predicate NotTarget(ops: seq<Op>, a: Frame) {
    forall i :: 0 <= i < |ops| ==> ops[i].Remap? ==> ops[i].r != a
  }

  lemma PartOfRun(kernel: Frame, states: seq<State>, ops: seq<Op>, from: nat, to: nat)
    requires IsRun(kernel, states, ops) && from <= to <= |ops|
    ensures IsRun(kernel, states[from..to + 1], ops[from..to])
  {
    forall i | 0 <= i < to - from
      ensures Effect(kernel, states[from..to + 1][i], ops[from..to][i], states[from..to + 1][i + 1])
    {
      assert Effect(kernel, states[from + i], ops[from + i], states[from + i + 1]);
    }
  }

  // ---------- isolation ----------

  lemma StepLeavesPrivate(kernel: Frame, s: State, op: Op, s': State, a: Frame, v: nat)
    requires Effect(kernel, s, op, s') && IsRoot(s.tables, a) && IsRoot(s'.tables, a)
    requires op.Remap? ==> op.r != a
    requires v < VIRTUAL_PAGES && Index(v, 4) < FIRST_SHARED
    ensures Walk(s'.m, a, v) == Walk(s.m, a, v)
  {
    match op
    case Create(c) =>
    case Destroy(c) =>
    case Remap(r, v0, n, what) =>
      assert RemappedAt(s.m, s'.m, r, v0, n, what, a, v);
      assert IsRoot(s'.tables, r);
      PrivateSlots(s'.m, s'.tables, a, r, v);
    case Store => SameWalk(s.m, s'.m, s.tables, a, v);
  }

  /** Whatever the other spaces do, and whichever spaces come and go, below the shared slots a
      space keeps meaning what it meant as long as nobody maps or unmaps in it. */
  lemma {:induction false} Isolation(kernel: Frame, states: seq<State>, ops: seq<Op>, a: Frame, v: nat)
    requires IsRun(kernel, states, ops) && Alive(states, a) && NotTarget(ops, a)
    requires v < VIRTUAL_PAGES && Index(v, 4) < FIRST_SHARED
    ensures Walk(states[|ops|].m, a, v) == Walk(states[0].m, a, v)
    decreases |ops|
  {
    if |ops| > 0 {
      var n := |ops| - 1;
      var states', ops' := states[..|states| - 1], ops[..n];
      PartOfRun(kernel, states, ops, 0, n);
      assert Alive(states', a) && NotTarget(ops', a);
      Isolation(kernel, states', ops', a, v);
      StepLeavesPrivate(kernel, states[n], ops[n], states[n + 1], a, v);
    }
  }

  // ---------- shared slots ----------

  /** Space a and the kernel have the same table in root slot j. */
  ghost predicate Linked(s: State, kernel: Frame, a: Frame, j: nat)
    requires j < ENTRIES
  {
    Child(s.m, kernel, j).Some? && Child(s.m, a, j) == Child(s.m, kernel, j)
  }

  lemma StepKeepsLink(kernel: Frame, s: State, op: Op, s': State, a: Frame, j: nat)
    requires Effect(kernel, s, op, s') && j < ENTRIES
    requires IsRoot(s.tables, a) && IsRoot(s'.tables, a) && IsRoot(s.tables, kernel) && IsRoot(s'.tables, kernel)
    requires Linked(s, kernel, a, j)
    ensures Linked(s', kernel, a, j) && Child(s'.m, kernel, j) == Child(s.m, kernel, j)
  {
    if op.Store? {
      SameChild(s.m, s'.m, s.tables, a, j);
      SameChild(s.m, s'.m, s.tables, kernel, j);
    }
  }

  /** A slot that a space took over from the kernel stays shared with it for as long as the space
      lives, through every map, unmap, creation and destruction, so that both always see the
      same pages there. */
  lemma {:induction false} SharedForever(kernel: Frame, states: seq<State>, ops: seq<Op>, a: Frame, j: nat)
    requires IsRun(kernel, states, ops) && Alive(states, a) && Alive(states, kernel) && j < ENTRIES
    requires Linked(states[0], kernel, a, j)
    ensures Linked(states[|ops|], kernel, a, j)
    ensures forall v: nat :: Index(v, 4) == j ==> Walk(states[|ops|].m, a, v) == Walk(states[|ops|].m, kernel, v)
    decreases |ops|
  {
    if |ops| > 0 {
      var n := |ops| - 1;
      var states', ops' := states[..|states| - 1], ops[..n];
      PartOfRun(kernel, states, ops, 0, n);
      assert Alive(states', a) && Alive(states', kernel);
      SharedForever(kernel, states', ops', a, j);
      StepKeepsLink(kernel, states[n], ops[n], states[n + 1], a, j);
    }
    forall v: nat | Index(v, 4) == j
      ensures Walk(states[|ops|].m, a, v) == Walk(states[|ops|].m, kernel, v)
    {
      LinkedWalk(states[|ops|], kernel, a, v);
    }
  }

  lemma LinkedWalk(s: State, kernel: Frame, a: Frame, v: nat)
    requires Linked(s, kernel, a, Index(v, 4))
    ensures Walk(s.m, a, v) == Walk(s.m, kernel, v)
  {
  }

  /** A space that was just created has taken over every slot the kernel has from 255 on. */
  lemma CreatedIsLinked(kernel: Frame, s: State, s': State, c: Frame, j: nat)
    requires Effect(kernel, s, Create(c), s') && FIRST_SHARED <= j < ENTRIES && Child(s.m, kernel, j).Some?
    ensures Linked(s', kernel, c, j)
  {
  }

  /** So a new space and the kernel see the same pages there ever after. */
  lemma CreatedShares(kernel: Frame, states: seq<State>, ops: seq<Op>, c: Frame, v: nat)
    requires IsRun(kernel, states, ops) && ops != [] && ops[0] == Create(c)
    requires Alive(states[1..], c) && Alive(states[1..], kernel)
    requires FIRST_SHARED <= Index(v, 4) && Child(states[0].m, kernel, Index(v, 4)).Some?
    ensures Walk(states[|ops|].m, c, v) == Walk(states[|ops|].m, kernel, v)
  {
    assert Effect(kernel, states[0], ops[0], states[1]);
    CreatedIsLinked(kernel, states[0], states[1], c, Index(v, 4));
    PartOfRun(kernel, states, ops, 1, |ops|);
    SharedForever(kernel, states[1..|ops| + 1], ops[1..|ops|], c, Index(v, 4));
  }

  // ---------- table frames ----------

  /** A table reached from two roots hangs in a slot that may be shared, at the same index; any
      other table is reached through one entry only. */
  lemma ReachedOnce(m: seq<byte>, tables: Tables, f: Frame, i: nat, g: Frame, j: nat)
    requires Tree(m, tables) && f in tables && g in tables && i < ENTRIES && j < ENTRIES
    requires tables[f].level >= 2 && tables[g].level >= 2
    requires Child(m, f, i).Some? && Child(m, f, i) == Child(m, g, j)
    ensures tables[f].level == tables[g].level && i == j
    ensures f == g || (tables[f].level == 4 && i >= FIRST_SHARED)
  {
    assert TableOk(m, tables, f) && TableOk(m, tables, g);
    assert LinkOk(m, tables, f, i) && LinkOk(m, tables, g, j);
  }
}
