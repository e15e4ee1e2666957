/** A transaction that keeps its snapshot from command to command while it changes rows itself. */
module OwnCommands {
  import opened Mvcc
  import opened MvccSnapshots

  /** The kept snapshot as the present command uses it. */
  function Present<T>(st: State<T>, s: Snapshot): Snapshot
    requires s.me in st.cids
  {
    s.(curcid := st.cids[s.me])
  }

  /** As the next command will: everything of its own is seen. */
  function Following<T>(st: State<T>, s: Snapshot): Snapshot
    requires s.me in st.cids
  {
    s.(curcid := st.cids[s.me] + 1)
  }

  ghost predicate OneEach<T>(st: State<T>, s: Snapshot) {
    forall i, j :: 0 <= i < j < |st.rows| ==> !BothVisible(st, s, i, j)
  }

  /** The transaction runs, and what its snapshot counts as finished is. */
  ghost predicate Kept<T>(st: State<T>, s: Snapshot) {
    Active(st, s.me) && s.me !in s.done && forall x :: x in s.done ==> x in st.xacts && !InProgress(st, x)
  }

  predicate OwnUpdate<T>(st: State<T>, s: Snapshot, op: Op<T>) {
    op.Update? && op.x == s.me && Active(st, op.x) && op.i < |st.rows| && Check(st, st.rows[op.i], op.x) == Outcome.Ok
  }

  /** An update of its own supersedes the version it sees, or one of a row it sees no version of. */
  ghost predicate SafeUpdate<T>(st: State<T>, s: Snapshot, op: Op<T>)
    requires s.me in st.cids
  {
    OwnUpdate(st, s, op) ==> !OtherVisible(st, Following(st, s), op.i)
  }

  lemma KeptStep<T>(st: State<T>, s: Snapshot, op: Op<T>)
    requires Kept(st, s) && Active(Step(st, op), s.me)
    ensures Kept(Step(st, op), s)
  {
  }

  /** A version that the step neither adds nor stamps by the snapshot's owner stays as visible as it was. */
  lemma SameFollowing<T>(st: State<T>, s: Snapshot, op: Op<T>, i: nat)
    requires Valid(st) && Kept(st, s) && Active(Step(st, op), s.me) && i < |st.rows|
    requires (op.Update? || op.Delete?) && op.x == s.me ==> op.i != i
    ensures i < |Step(st, op).rows| && Step(st, op).rows[i].key == st.rows[i].key
    ensures IsVisible(Step(st, op), Step(st, op).rows[i], Following(Step(st, op), s))
      <==> IsVisible(st, st.rows[i], Following(st, s))
  {
    assert RowOk(st, i);
  }

  /** Its own update hides the version it supersedes and shows the new one; its own delete hides. */
  lemma OwnFollowing<T>(st: State<T>, s: Snapshot, op: Op<T>)
    requires Valid(st) && Kept(st, s) && (op.Update? || op.Delete?) && op.x == s.me && op.i < |st.rows|
    requires Check(st, st.rows[op.i], op.x) == Outcome.Ok
    ensures var st', f := Step(st, op), Following(Step(st, op), s);
      && |st'.rows| == |st.rows| + (if op.Update? then 1 else 0)
      && st'.rows[op.i].key == st.rows[op.i].key && !IsVisible(st', st'.rows[op.i], f)
      && (op.Update? ==> st'.rows[|st.rows|].key == st.rows[op.i].key && IsVisible(st', st'.rows[|st.rows|], f))
  {
    assert RowOk(st, op.i);
  }

  /** A version somebody else adds is not seen; one of its own gets a key no other version has. */
  lemma AddedFollowing<T>(st: State<T>, s: Snapshot, op: Op<T>)
    requires Valid(st) && Kept(st, s) && Active(Step(st, op), s.me)
    requires |Step(st, op).rows| > |st.rows| && !OwnUpdate(st, s, op)
    ensures |Step(st, op).rows| == |st.rows| + 1
    ensures var st', n := Step(st, op), |st.rows|;
      !IsVisible(st', st'.rows[n], Following(st', s)) || forall i :: 0 <= i < n ==> st'.rows[i].key != st'.rows[n].key
  {
    var st', n := Step(st, op), |st.rows|;
    forall i | 0 <= i < n ensures op.Insert? ==> st'.rows[i].key != st'.rows[n].key { assert RowOk(st, i); }
  }

  /** One step: the next command sees at most one version of each row exactly when it did before and
      the step was no unsafe update of its own. */
  lemma OneStepIff<T>(st: State<T>, s: Snapshot, op: Op<T>)
    requires Valid(st) && Kept(st, s) && Active(Step(st, op), s.me) && OneEach(st, Following(st, s))
    ensures OneEach(Step(st, op), Following(Step(st, op), s)) <==> SafeUpdate(st, s, op)
  {
    if OwnUpdate(st, s, op) {
      OwnUpdateIff(st, s, op);
    } else {
      OtherStep(st, s, op);
    }
  }

  lemma OwnUpdateIff<T>(st: State<T>, s: Snapshot, op: Op<T>)
    requires Valid(st) && Kept(st, s) && Active(Step(st, op), s.me) && OneEach(st, Following(st, s))
    requires OwnUpdate(st, s, op)
    ensures OneEach(Step(st, op), Following(Step(st, op), s)) <==> !OtherVisible(st, Following(st, s), op.i)
  {
    var st', f, f', n := Step(st, op), Following(st, s), Following(Step(st, op), s), |st.rows|;
    OwnFollowing(st, s, op);
    forall i | 0 <= i < n && i != op.i
      ensures st'.rows[i].key == st.rows[i].key && (IsVisible(st', st'.rows[i], f') <==> IsVisible(st, st.rows[i], f))
    {
      SameFollowing(st, s, op, i);
    }
    if OtherVisible(st, f, op.i) {
      var k :| 0 <= k < n && k != op.i && SameVisible(st, f, op.i, k);
      assert BothVisible(st', f', k, n);
    } else {
      forall i, j | 0 <= i < j < |st'.rows| ensures !BothVisible(st', f', i, j) {
        if j < n {
          assert !BothVisible(st, f, i, j);
        } else if i != op.i {
          assert !SameVisible(st, f, op.i, i);
        }
      }
    }
  }

  lemma OtherStep<T>(st: State<T>, s: Snapshot, op: Op<T>)
    requires Valid(st) && Kept(st, s) && Active(Step(st, op), s.me) && OneEach(st, Following(st, s))
    requires !OwnUpdate(st, s, op)
    ensures OneEach(Step(st, op), Following(Step(st, op), s))
  {
    var st', f, f', n := Step(st, op), Following(st, s), Following(Step(st, op), s), |st.rows|;
    if |st'.rows| > n { AddedFollowing(st, s, op); }
    forall i, j | 0 <= i < j < |st'.rows| ensures !BothVisible(st', f', i, j) {
      if j < n {
        assert !BothVisible(st, f, i, j);
        StillHidden(st, s, op, i);
        StillHidden(st, s, op, j);
      }
    }
  }

  lemma StillHidden<T>(st: State<T>, s: Snapshot, op: Op<T>, i: nat)
    requires Valid(st) && Kept(st, s) && Active(Step(st, op), s.me) && i < |st.rows| && !OwnUpdate(st, s, op)
    ensures Step(st, op).rows[i].key == st.rows[i].key
    ensures IsVisible(Step(st, op), Step(st, op).rows[i], Following(Step(st, op), s)) ==> IsVisible(st, st.rows[i], Following(st, s))
  {
    if op.Delete? && op.x == s.me && op.i == i {
      if Check(st, st.rows[i], op.x) == Outcome.Ok { OwnFollowing(st, s, op); }
    } else if op.Update? && op.x == s.me && op.i == i {
      assert Step(st, op) == st;
    } else {
      SameFollowing(st, s, op, i);
    }
  }

  // ---------------------------------------------------------------- over runs

  ghost predicate SafeUpdates<T>(st: State<T>, s: Snapshot, ops: seq<Op<T>>)
    decreases |ops|
  {
    ops == [] || (s.me in st.cids && SafeUpdate(st, s, ops[0]) && SafeUpdates(Step(st, ops[0]), s, ops[1..]))
  }

  ghost predicate AlwaysOne<T>(st: State<T>, s: Snapshot, ops: seq<Op<T>>)
    decreases |ops|
  {
    s.me in st.cids && OneEach(st, Following(st, s)) && (ops == [] || AlwaysOne(Step(st, ops[0]), s, ops[1..]))
  }

  /** Over any run of everybody's steps: at all times the next command of the transaction will see at
      most one version of every row, exactly when each of its updates superseded the version it sees
      or one of a row it sees no version of. */
  lemma {:induction false} AlwaysOneIff<T>(st: State<T>, s: Snapshot, ops: seq<Op<T>>)
    requires Valid(st) && Kept(st, s) && StaysActive(st, ops, s.me) && OneEach(st, Following(st, s))
    ensures AlwaysOne(st, s, ops) <==> SafeUpdates(st, s, ops)
    decreases |ops|
  {
    if ops != [] {
      var st' := Step(st, ops[0]);
      assert StaysActive(st', ops[1..], s.me);
      StepKeeps(st, ops[0]);
      KeptStep(st, s, ops[0]);
      OneStepIff(st, s, ops[0]);
      if OneEach(st', Following(st', s)) { AlwaysOneIff(st', s, ops[1..]); }
    }
  }

  /** The command that runs sees at most one version as well, all the way. */
  lemma {:induction false} PresentOne<T>(st: State<T>, s: Snapshot, ops: seq<Op<T>>)
    requires Valid(st) && Kept(st, s) && StaysActive(st, ops, s.me) && SafeUpdates(st, s, ops)
    requires OneEach(st, Following(st, s)) && OneEach(st, Present(st, s))
    ensures s.me in Run(st, ops).cids && OneEach(Run(st, ops), Present(Run(st, ops), s))
    decreases |ops|
  {
    if ops != [] {
      var st' := Step(st, ops[0]);
      assert StaysActive(st', ops[1..], s.me);
      StepKeeps(st, ops[0]);
      KeptStep(st, s, ops[0]);
      OneStepIff(st, s, ops[0]);
      PresentStep(st, s, ops[0]);
      PresentOne(st', s, ops[1..]);
    }
  }

  lemma PresentStep<T>(st: State<T>, s: Snapshot, op: Op<T>)
    requires Valid(st) && Kept(st, s) && Active(Step(st, op), s.me)
    requires OneEach(st, Following(st, s)) && OneEach(st, Present(st, s))
    ensures OneEach(Step(st, op), Present(Step(st, op), s))
  {
    var st' := Step(st, op);
    if st'.cids[s.me] == st.cids[s.me] {
      var p := Present(st, s);
      forall i, j | 0 <= i < j < |st'.rows| ensures !BothVisible(st', p, i, j) {
        SeesStep(st, p, op, i);
        SeesStep(st, p, op, j);
        if j < |st.rows| {
          assert !BothVisible(st, p, i, j);
          KeysStay(st, [op], i);
          KeysStay(st, [op], j);
        }
      }
    } else {
      assert st' == st.(cids := st'.cids) && Present(st', s) == Following(st, s);
      forall i, j | 0 <= i < j < |st'.rows| ensures !BothVisible(st', Present(st', s), i, j) {
        assert !BothVisible(st, Following(st, s), i, j);
      }
    }
  }

  /** A transaction begins like that: a snapshot just taken sees one version, and so will the next
      command. */
  lemma TakenOne<T>(st: State<T>, me: nat)
    requires Valid(st) && Active(st, me)
    ensures Kept(st, Take(st, me))
    ensures OneEach(st, Following(st, Take(st, me))) && OneEach(st, Present(st, Take(st, me)))
  {
    forall i, j | 0 <= i < j < |st.rows|
      ensures !BothVisible(st, Following(st, Take(st, me)), i, j) && !BothVisible(st, Present(st, Take(st, me)), i, j)
    {
      assert PairOk(st, i, j) && RowOk(st, i) && RowOk(st, j);
    }
  }
}
