/** What any snapshot sees over any run, and who may supersede what. */
module MvccSnapshots {
  import opened Mvcc

  function Finished<T>(st: State<T>): set<nat> { set x | x in st.xacts && st.xacts[x] != Running }

  function Take<T>(st: State<T>, me: nat): Snapshot
    requires Active(st, me)
  {
    Snapshot(me, Finished(st), st.cids[me])
  }

  /** A snapshot taken some time ago by a transaction that still runs. */
  ghost predicate Held<T>(st: State<T>, s: Snapshot) {
    && Active(st, s.me) && s.curcid <= st.cids[s.me] && s.me !in s.done
    && forall x :: x in s.done ==> x in st.xacts && !InProgress(st, x)
  }

  /** The code's case analysis says: sees the insert and does not see the end. */
  lemma VisibleIs<T>(st: State<T>, s: Snapshot, i: nat)
    requires Valid(st) && Held(st, s) && i < |st.rows|
    ensures var v := st.rows[i];
      IsVisible(st, v, s) <==> Sees(st, s, v.xmin, v.cmin) && !(v.xmax != 0 && Sees(st, s, v.xmax, v.cmax))
  {
    assert RowOk(st, i);
  }

  lemma HeldStep<T>(st: State<T>, s: Snapshot, op: Op<T>)
    requires Held(st, s) && Active(Step(st, op), s.me)
    ensures Held(Step(st, op), s)
  {
  }

  /** No step changes what a held snapshot sees of a finished stamp, nor adds a stamp that it sees. */
  lemma SeesStep<T>(st: State<T>, s: Snapshot, op: Op<T>, i: nat)
    requires Valid(st) && Held(st, s) && Active(Step(st, op), s.me) && i < |Step(st, op).rows|
    ensures var st' := Step(st, op);
      if i < |st.rows| then IsVisible(st', st'.rows[i], s) <==> IsVisible(st, st.rows[i], s)
      else !IsVisible(st', st'.rows[i], s)
  {
    var st' := Step(st, op);
    StepKeeps(st, op);
    HeldStep(st, s, op);
    VisibleIs(st', s, i);
    if i < |st.rows| {
      VisibleIs(st, s, i);
      assert RowOk(st, i);
    }
  }

  /** The snapshot's owner is still running after every step of the run. */
  predicate StaysActive<T>(st: State<T>, ops: seq<Op<T>>, me: nat)
    decreases |ops|
  {
    Active(st, me) && (ops == [] || StaysActive(Step(st, ops[0]), ops[1..], me))
  }

  /** Over any run, a held snapshot goes on seeing exactly the versions it saw. */
  lemma {:induction false} SnapshotStable<T>(st: State<T>, s: Snapshot, ops: seq<Op<T>>)
    requires Valid(st) && Held(st, s) && StaysActive(st, ops, s.me)
    ensures Valid(Run(st, ops)) && Held(Run(st, ops), s) && |st.rows| <= |Run(st, ops).rows|
    ensures forall i :: 0 <= i < |Run(st, ops).rows| ==>
      (IsVisible(Run(st, ops), Run(st, ops).rows[i], s) <==> i < |st.rows| && IsVisible(st, st.rows[i], s))
    decreases |ops|
  {
    if ops != [] {
      var st1, op, rest := Step(st, ops[0]), ops[0], ops[1..];
      StepKeeps(st, op);
      assert StaysActive(st1, rest, s.me);
      HeldStep(st, s, op);
      SnapshotStable(st1, s, rest);
      forall i | 0 <= i < |Run(st, ops).rows|
        ensures IsVisible(Run(st, ops), Run(st, ops).rows[i], s) <==> i < |st.rows| && IsVisible(st, st.rows[i], s)
      {
        if i < |st1.rows| { SeesStep(st, s, op, i); }
      }
    }
  }

  lemma TakeHeld<T>(st: State<T>, me: nat)
    requires Valid(st) && Active(st, me)
    ensures Held(st, Take(st, me))
  {
  }

  /** A snapshot just taken sees what its transaction did in earlier commands, and of others exactly
      what has been committed. */
  lemma TakeSees<T>(st: State<T>, me: nat, x: nat, c: nat)
    requires Active(st, me)
    ensures Sees(st, Take(st, me), x, c) <==> if x == me then c < st.cids[me] else DidCommit(st, x)
  {
  }

  /** Freshly taken, a snapshot sees at most one version of a row. */
  lemma OneWhenTaken<T>(st: State<T>, me: nat, i: nat, j: nat)
    requires Valid(st) && Active(st, me) && i < j < |st.rows| && st.rows[i].key == st.rows[j].key
    requires IsVisible(st, st.rows[i], Take(st, me))
    ensures !IsVisible(st, st.rows[j], Take(st, me))
  {
    var s := Take(st, me);
    TakeHeld(st, me);
    VisibleIs(st, s, i);
    VisibleIs(st, s, j);
    assert PairOk(st, i, j) && RowOk(st, i) && RowOk(st, j);
  }

  /** Whatever happens after it was taken, a snapshot never sees two versions of a row. */
  lemma AtMostOneVisible<T>(st: State<T>, me: nat, ops: seq<Op<T>>, i: nat, j: nat)
    requires Valid(st) && Active(st, me) && StaysActive(st, ops, me)
    requires i < j < |Run(st, ops).rows| && Run(st, ops).rows[i].key == Run(st, ops).rows[j].key
    ensures var st1, s := Run(st, ops), Take(st, me);
      !(IsVisible(st1, st1.rows[i], s) && IsVisible(st1, st1.rows[j], s))
  {
    var st1, s := Run(st, ops), Take(st, me);
    TakeHeld(st, me);
    SnapshotStable(st, s, ops);
    if IsVisible(st1, st1.rows[i], s) && IsVisible(st1, st1.rows[j], s) {
      KeysStay(st, ops, i);
      KeysStay(st, ops, j);
      OneWhenTaken(st, me, i, j);
    }
  }

  lemma {:induction false} KeysStay<T>(st: State<T>, ops: seq<Op<T>>, i: nat)
    requires i < |st.rows|
    ensures i < |Run(st, ops).rows| && Run(st, ops).rows[i].key == st.rows[i].key
    decreases |ops|
  {
    if ops != [] { KeysStay(Step(st, ops[0]), ops[1..], i); }
  }

  // ---------------------------------------------------------------- exactly one

  ghost predicate SeesDelete<T>(st: State<T>, s: Snapshot, key: nat) {
    exists i :: 0 <= i < |st.rows| && DeleteSeen(st, s, key, i)
  }

  ghost predicate DeleteSeen<T>(st: State<T>, s: Snapshot, key: nat, i: nat)
    requires i < |st.rows|
  {
    var v := st.rows[i];
    v.key == key && v.erased && v.xmax != 0 && !DidAbort(st, v.xmax) && Sees(st, s, v.xmax, v.cmax)
  }

  /** If the snapshot sees the beginning of a version but no delete of the row, it sees a version
      of the row at or after that one. */
  lemma {:induction false} SomeVisible<T>(st: State<T>, s: Snapshot, i: nat) returns (j: nat)
    requires Valid(st) && Held(st, s) && i < |st.rows|
    requires Sees(st, s, st.rows[i].xmin, st.rows[i].cmin) && !SeesDelete(st, s, st.rows[i].key)
    ensures i <= j < |st.rows| && st.rows[j].key == st.rows[i].key && IsVisible(st, st.rows[j], s)
    decreases |st.rows| - i
  {
    var v := st.rows[i];
    VisibleIs(st, s, i);
    if IsVisible(st, v, s) {
      j := i;
    } else {
      assert RowOk(st, i) && NextOk(st, i);
      assert !DidAbort(st, v.xmax);
      assert !DeleteSeen(st, s, v.key, i);
      var k :| i < k < |st.rows| && Follows(st.rows, i, k);
      j := SomeVisible(st, s, k);
    }
  }

  /** A row whose insert is seen and whose deletes are not shows exactly one version, over any run. */
  lemma ExactlyOneVisible<T>(st: State<T>, me: nat, ops: seq<Op<T>>, i: nat) returns (j: nat)
    requires Valid(st) && Active(st, me) && StaysActive(st, ops, me) && i < |st.rows|
    requires Sees(st, Take(st, me), st.rows[i].xmin, st.rows[i].cmin)
    requires !SeesDelete(st, Take(st, me), st.rows[i].key)
    ensures var st1, s := Run(st, ops), Take(st, me);
      && j < |st1.rows| && st1.rows[j].key == st.rows[i].key && IsVisible(st1, st1.rows[j], s)
      && forall k :: 0 <= k < |st1.rows| && st1.rows[k].key == st.rows[i].key && IsVisible(st1, st1.rows[k], s) ==> k == j
  {
    var st1, s := Run(st, ops), Take(st, me);
    TakeHeld(st, me);
    j := SomeVisible(st, s, i);
    SnapshotStable(st, s, ops);
    KeysStay(st, ops, j);
    forall k | 0 <= k < |st1.rows| && st1.rows[k].key == st.rows[i].key && IsVisible(st1, st1.rows[k], s)
      ensures k == j
    {
      if k < j { AtMostOneVisible(st, me, ops, k, j); } else if j < k { AtMostOneVisible(st, me, ops, j, k); }
    }
  }

  // ---------------------------------------------------------------- one update

  ghost predicate Proper<T>(st: State<T>, s: Snapshot) {
    s.me !in s.done && forall x :: x in s.done ==> !InProgress(st, x)
  }

  /** After an update, whoever saw the old version sees exactly one of the two, and which one is
      decided by whether it sees the updating command. */
  lemma UpdateBoundary<T>(st: State<T>, s: Snapshot, x: nat, i: nat, data: T)
    requires Valid(st) && Active(st, x) && i < |st.rows| && Check(st, st.rows[i], x) == Outcome.Ok
    requires Proper(st, s) && IsVisible(st, st.rows[i], s)
    ensures var st', n := Step(st, Update(x, i, data)), |st.rows|;
      && n < |st'.rows| && st'.rows[n].key == st'.rows[i].key
      && (IsVisible(st', st'.rows[n], s) <==> Sees(st', s, x, st.cids[x]))
      && (IsVisible(st', st'.rows[i], s) <==> !Sees(st', s, x, st.cids[x]))
      && !st'.rows[i].erased && st'.rows[n].data == data
  {
    assert RowOk(st, i);
  }

  /** What is inserted is seen by whoever sees the inserting command, and by nobody else. */
  lemma InsertBoundary<T>(st: State<T>, s: Snapshot, x: nat, data: T)
    requires Active(st, x) && 0 !in st.xacts && s.me in st.xacts && Proper(st, s)
    ensures var st', n := Step(st, Insert(x, data)), |st.rows|;
      && |st'.rows| == n + 1 && st'.rows[n].data == data && st'.rows[..n] == st.rows
      && (IsVisible(st', st'.rows[n], s) <==> Sees(st', s, x, st.cids[x]))
  {
  }

  /** After a delete whoever saw the version still does, unless it sees the deleting command. */
  lemma DeleteBoundary<T>(st: State<T>, s: Snapshot, x: nat, i: nat)
    requires Valid(st) && Active(st, x) && i < |st.rows| && Check(st, st.rows[i], x) == Outcome.Ok
    requires Proper(st, s) && IsVisible(st, st.rows[i], s)
    ensures var st' := Step(st, Delete(x, i));
      && |st'.rows| == |st.rows| && st'.rows[i].erased && st'.rows[i].data == st.rows[i].data
      && (IsVisible(st', st'.rows[i], s) <==> !Sees(st', s, x, st.cids[x]))
  {
    assert RowOk(st, i);
  }

  // ---------------------------------------------------------------- an old snapshot and its own update

  ghost predicate OtherVisible<T>(st: State<T>, s: Snapshot, i: nat)
    requires i < |st.rows|
  {
    exists k :: 0 <= k < |st.rows| && k != i && SameVisible(st, s, i, k)
  }

  ghost predicate SameVisible<T>(st: State<T>, s: Snapshot, i: nat, k: nat)
    requires i < |st.rows| && k < |st.rows|
  {
    st.rows[k].key == st.rows[i].key && IsVisible(st, st.rows[k], s)
  }

  ghost predicate TwoVisible<T>(st: State<T>, s: Snapshot, key: nat) {
    exists a, b :: 0 <= a < b < |st.rows| && st.rows[a].key == key && BothVisible(st, s, a, b)
  }

  ghost predicate BothVisible<T>(st: State<T>, s: Snapshot, a: nat, b: nat)
    requires a < |st.rows| && b < |st.rows|
  {
    st.rows[a].key == st.rows[b].key && IsVisible(st, st.rows[a], s) && IsVisible(st, st.rows[b], s)
  }

  /** A transaction that keeps its snapshot and moves on to its next command after an update sees one
      version of the row exactly when no version other than the one it updated was visible to it. */
  lemma OldSnapshotIff<T>(st: State<T>, s: Snapshot, i: nat, data: T)
    requires Valid(st) && Held(st, s) && s.curcid == st.cids[s.me]
    requires i < |st.rows| && Check(st, st.rows[i], s.me) == Outcome.Ok
    ensures var st', later := Step(st, Update(s.me, i, data)), s.(curcid := s.curcid + 1);
      !TwoVisible(st', later, st.rows[i].key) <==> !OtherVisible(st, later, i)
  {
    var st', later, n := Step(st, Update(s.me, i, data)), s.(curcid := s.curcid + 1), |st.rows|;
    assert IsVisible(st', st'.rows[n], later);
    assert !IsVisible(st', st'.rows[i], later) by { assert RowOk(st, i); }
    if OtherVisible(st, later, i) {
      var k :| 0 <= k < n && k != i && SameVisible(st, later, i, k);
      assert BothVisible(st', later, k, n);
    }
    if TwoVisible(st', later, st.rows[i].key) {
      var a, b :| 0 <= a < b < |st'.rows| && st'.rows[a].key == st.rows[i].key && BothVisible(st', later, a, b);
      assert SameVisible(st, later, i, a);
    }
  }

  /** It does happen: a row changed and committed by somebody else after the snapshot was taken. */
  lemma OldSnapshotSeesTwo() returns (st: State<int>, s: Snapshot)
    ensures Valid(st) && Held(st, s) && |st.rows| == 2 && Check(st, st.rows[1], s.me) == Outcome.Ok
    ensures s.curcid == st.cids[s.me]
    ensures TwoVisible(Step(st, Update(s.me, 1, 30)), s.(curcid := s.curcid + 1), 0)
  {
    var st3 := OneRow();
    s := Take(st3, 2);
    var st4 := Step(st3, Begin(3));
    assert Check(st4, st4.rows[0], 3) == Outcome.Ok;
    var st5 := Step(st4, Update(3, 0, 20));
    assert st5.rows == [Version(0, 10, 1, 0, 3, 0, false), Version(0, 20, 3, 0, 0, 0, false)];
    st := Step(st5, Commit(3));
    StepKeeps(st3, Begin(3));
    StepKeeps(st4, Update(3, 0, 20));
    StepKeeps(st5, Commit(3));
    var st6 := Step(st, Update(2, 1, 30));
    assert st6.rows == [st.rows[0], st.rows[1].(xmax := 2), Version(0, 30, 2, 0, 0, 0, false)];
    assert BothVisible(st6, s.(curcid := 1), 0, 2);
  }

  lemma OneRow() returns (st: State<int>)
    ensures Valid(st) && st.rows == [Version(0, 10, 1, 0, 0, 0, false)]
    ensures st.xacts == map[1 := Committed, 2 := Running] && st.cids == map[1 := 0, 2 := 0]
  {
    var st0 := Empty<int>();
    var st1 := Step(st0, Begin(1));
    var st2 := Step(st1, Insert(1, 10));
    var st3 := Step(st2, Commit(1));
    st := Step(st3, Begin(2));
    StepKeeps(st0, Begin(1));
    StepKeeps(st1, Insert(1, 10));
    StepKeeps(st2, Commit(1));
    StepKeeps(st3, Begin(2));
  }

  // ---------------------------------------------------------------- liveness

  /** The version began with x itself or with a committed transaction. */
  predicate Begun<T>(st: State<T>, v: Version<T>, x: nat) { v.xmin == x || DidCommit(st, v.xmin) }

  /** What an update or delete by x answers, said by who wrote the stamps: it may go ahead when the
      version is its own or committed and nobody ended it, or whoever did was rolled back; it hears of
      a concurrent update when somebody else who still runs ended it; otherwise there is nothing to
      supersede. */
  lemma CheckIs<T>(st: State<T>, x: nat, i: nat)
    requires Valid(st) && Active(st, x) && i < |st.rows|
    ensures var v := st.rows[i];
      && (Check(st, v, x) == Outcome.Ok <==> Begun(st, v, x) && (v.xmax == 0 || DidAbort(st, v.xmax)))
      && (Check(st, v, x) == Updated <==> Begun(st, v, x) && v.xmax != 0 && v.xmax != x && InProgress(st, v.xmax))
      && (Check(st, v, x) == Invisible <==>
            !Begun(st, v, x) || (v.xmax != 0 && (v.xmax == x || DidCommit(st, v.xmax))))
  {
    assert RowOk(st, i);
  }

  predicate NotSuperseded<T>(ops: seq<Op<T>>, x: nat, i: nat) {
    forall k :: 0 <= k < |ops| && (ops[k].Update? || ops[k].Delete?) && ops[k].x == x ==> ops[k].i != i
  }

  /** A version that x wrote stays as it is and free to x, over any run in which x itself does not
      supersede it. */
  lemma {:induction false} OwnStaysFree<T>(st: State<T>, x: nat, i: nat, ops: seq<Op<T>>)
    requires Valid(st) && StaysActive(st, ops, x) && i < |st.rows|
    requires st.rows[i].xmin == x && st.rows[i].xmax == 0 && NotSuperseded(ops, x, i)
    ensures Valid(Run(st, ops)) && Active(Run(st, ops), x)
    ensures i < |Run(st, ops).rows| && Run(st, ops).rows[i] == st.rows[i]
    ensures Check(Run(st, ops), st.rows[i], x) == Outcome.Ok
    decreases |ops|
  {
    CheckIs(st, x, i);
    if ops != [] {
      var st1 := Step(st, ops[0]);
      StepKeeps(st, ops[0]);
      assert RowOk(st, i) && StaysActive(st1, ops[1..], x);
      assert st1.rows[i] == st.rows[i];
      assert NotSuperseded(ops[1..], x, i) by {
        forall k | 0 <= k < |ops[1..]| ensures ops[1..][k] == ops[k + 1] {}
      }
      OwnStaysFree(st1, x, i, ops[1..]);
    }
  }

  /** What x inserts, and what it writes in place of a version it may supersede, is free to x from
      then on, however many commands it goes through. */
  lemma WrittenStaysFree<T>(st: State<T>, x: nat, op: Op<T>, ops: seq<Op<T>>)
    requires Valid(st) && Active(st, x)
    requires (op.Insert? && op.x == x)
      || (op.Update? && op.x == x && op.i < |st.rows| && Check(st, st.rows[op.i], x) == Outcome.Ok)
    requires StaysActive(Step(st, op), ops, x) && NotSuperseded(ops, x, |st.rows|)
    ensures var st', n := Run(Step(st, op), ops), |st.rows|;
      n < |st'.rows| && st'.rows[n].data == op.data && Check(st', st'.rows[n], x) == Outcome.Ok
  {
    StepKeeps(st, op);
    OwnStaysFree(Step(st, op), x, |st.rows|, ops);
  }

  /** Each transaction finds at most one live version of a row. */
  lemma AtMostOneLive<T>(st: State<T>, me: nat, i: nat, j: nat)
    requires Valid(st) && Active(st, me) && i < j < |st.rows| && st.rows[i].key == st.rows[j].key
    ensures !(IsLive(st, st.rows[i], me) && IsLive(st, st.rows[j], me))
  {
    assert PairOk(st, i, j) && RowOk(st, i) && RowOk(st, j);
  }

  /** While its updater runs, nobody else can touch a version's end. */
  lemma {:induction false} LockedWhileRunning<T>(st: State<T>, x: nat, i: nat, ops: seq<Op<T>>)
    requires Valid(st) && StaysActive(st, ops, x) && i < |st.rows| && st.rows[i].xmax == x
    ensures Valid(Run(st, ops)) && i < |Run(st, ops).rows| && Run(st, ops).rows[i] == st.rows[i]
    ensures Active(Run(st, ops), x)
    ensures forall y :: DidCommit(st, y) ==> DidCommit(Run(st, ops), y)
    decreases |ops|
  {
    if ops != [] {
      var st1 := Step(st, ops[0]);
      StepKeeps(st, ops[0]);
      assert RowOk(st, i);
      assert StaysActive(st1, ops[1..], x);
      assert st1.rows[i] == st.rows[i];
      LockedWhileRunning(st1, x, i, ops[1..]);
    }
  }

  /** An aborted updater or deleter leaves the old version live to everybody else, and free to be
      superseded again, whatever others did in the meantime. */
  lemma AbortRestores<T>(st: State<T>, x: nat, i: nat, op: Op<T>, ops: seq<Op<T>>, me: nat)
    requires Valid(st) && Active(st, x) && i < |st.rows| && Check(st, st.rows[i], x) == Outcome.Ok
    requires op == Delete(x, i) || (op.Update? && op == Update(x, i, op.data))
    requires st.rows[i].xmin != x && StaysActive(Step(st, op), ops, x) && me != x
    ensures var st2 := Step(Run(Step(st, op), ops), Abort(x));
      i < |st2.rows| && IsLive(st2, st2.rows[i], me) && Check(st2, st2.rows[i], me) == Outcome.Ok
  {
    StepKeeps(st, op);
    assert RowOk(st, i);
    assert st.rows[i].xmin == x || DidCommit(Step(st, op), st.rows[i].xmin);
    LockedWhileRunning(Step(st, op), x, i, ops);
  }

  ghost predicate Dead<T>(st: State<T>, i: nat)
    requires i < |st.rows|
  {
    DidCommit(st, st.rows[i].xmax) && st.rows[i].xmax != 0 && DidCommit(st, st.rows[i].xmin)
  }

  lemma {:induction false} DeadStays<T>(st: State<T>, i: nat, ops: seq<Op<T>>)
    requires Valid(st) && i < |st.rows| && Dead(st, i)
    ensures i < |Run(st, ops).rows| && Dead(Run(st, ops), i)
    decreases |ops|
  {
    if ops != [] {
      StepKeeps(st, ops[0]);
      assert RowOk(st, i);
      DeadStays(Step(st, ops[0]), i, ops[1..]);
    }
  }

  /** Once the updater has committed, the old version is dead to everybody for good. */
  lemma CommitKills<T>(st: State<T>, x: nat, i: nat, op: Op<T>, ops: seq<Op<T>>, more: seq<Op<T>>, me: nat)
    requires Valid(st) && Active(st, x) && i < |st.rows| && Check(st, st.rows[i], x) == Outcome.Ok
    requires op == Delete(x, i) || (op.Update? && op == Update(x, i, op.data))
    requires StaysActive(Step(st, op), ops, x)
    requires Active(Run(Step(Run(Step(st, op), ops), Commit(x)), more), me)
    ensures var st3 := Run(Step(Run(Step(st, op), ops), Commit(x)), more);
      i < |st3.rows| && !IsLive(st3, st3.rows[i], me) && Check(st3, st3.rows[i], me) == Invisible
  {
    StepKeeps(st, op);
    assert RowOk(st, i);
    assert st.rows[i].xmin == x || DidCommit(Step(st, op), st.rows[i].xmin);
    LockedWhileRunning(Step(st, op), x, i, ops);
    var st1 := Run(Step(st, op), ops);
    StepKeeps(st1, Commit(x));
    DeadStays(Step(st1, Commit(x)), i, more);
  }
}
