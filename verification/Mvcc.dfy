/** Row versions stamped by transactions and commands: liveness, snapshots, and the steps that
    insert, supersede and delete versions. */
module Mvcc {
  datatype Xact = Running | Committed | Aborted

  /** xmax == 0 is the invalid transaction id. `key` is the position of the row's first version;
      `erased` records whether xmax was set by a delete rather than an update. */
  datatype Version<T> = Version(key: nat, data: T, xmin: nat, cmin: nat, xmax: nat, cmax: nat, erased: bool)

  /** `cids` is the current command of each transaction. */
  datatype State<T> = State(xacts: map<nat, Xact>, cids: map<nat, nat>, rows: seq<Version<T>>)

  /** A snapshot holds the transactions that had finished when it was taken. */
  datatype Snapshot = Snapshot(me: nat, done: set<nat>, curcid: nat)

  predicate InProgress<T>(st: State<T>, x: nat) { x in st.xacts && st.xacts[x] == Running }

  predicate DidCommit<T>(st: State<T>, x: nat) { x in st.xacts && st.xacts[x] == Committed }

  predicate DidAbort<T>(st: State<T>, x: nat) { x in st.xacts && st.xacts[x] == Aborted }

  /** np_entity_tuple_is_live, to transaction `me`. */
  predicate IsLive<T>(st: State<T>, v: Version<T>, me: nat) {
    if v.xmin == 0 then false
    else if v.xmin == me then !(v.xmax != 0 && v.xmax == me)
    else if InProgress(st, v.xmin) || !DidCommit(st, v.xmin) then false
    else if v.xmax == 0 then true
    else if v.xmax == me then false
    else InProgress(st, v.xmax) || !DidCommit(st, v.xmax)
  }

  /** np_entity_tuple_xmax_other */
  predicate XmaxOther<T>(st: State<T>, v: Version<T>, me: nat) {
    v.xmax != 0 && v.xmax != me && InProgress(st, v.xmax)
  }

  /** np_catalog_tuple_visible for an MVCC snapshot. */
  predicate IsVisible<T>(st: State<T>, v: Version<T>, s: Snapshot) {
    if v.xmin == 0 then false
    else if v.xmin == s.me then
      if v.cmin >= s.curcid then false
      else if v.xmax != 0 && v.xmax == s.me then v.cmax >= s.curcid
      else true
    else if v.xmin !in s.done then false
    else if InProgress(st, v.xmin) || !DidCommit(st, v.xmin) then false
    else if v.xmax == 0 then true
    else if v.xmax == s.me then v.cmax >= s.curcid
    else if v.xmax !in s.done then true
    else InProgress(st, v.xmax) || !DidCommit(st, v.xmax)
  }

  /** The snapshot sees what transaction x did in command c. */
  predicate Sees<T>(st: State<T>, s: Snapshot, x: nat, c: nat) {
    if x == s.me then c < s.curcid else x in s.done && DidCommit(st, x)
  }

  // ---------------------------------------------------------------- steps

  datatype Op<T> =
    | Begin(x: nat)
    | NextCommand(x: nat)
    | Commit(x: nat)
    | Abort(x: nat)
    | Insert(x: nat, data: T)
    | Update(x: nat, i: nat, data: T)
    | Delete(x: nat, i: nat)

  datatype Outcome = Ok | Invisible | Updated

  /** What an update or delete answers before it touches anything. */
  function Check<T>(st: State<T>, v: Version<T>, x: nat): Outcome {
    if !IsLive(st, v, x) then Invisible else if XmaxOther(st, v, x) then Updated else Outcome.Ok
  }

  function Fresh<T>(key: nat, data: T, x: nat, cid: nat): Version<T> {
    Version(key, data, x, cid, 0, 0, false)
  }

  function Stamped<T>(v: Version<T>, x: nat, cid: nat, erased: bool): Version<T> {
    v.(xmax := x, cmax := cid, erased := erased)
  }

  predicate Active<T>(st: State<T>, x: nat) { InProgress(st, x) && x in st.cids }

  /** A step that is refused changes nothing. */
  function Step<T>(st: State<T>, op: Op<T>): State<T> {
    match op
    case Begin(x) =>
      if x == 0 || x in st.xacts then st else st.(xacts := st.xacts[x := Running], cids := st.cids[x := 0])
    case NextCommand(x) => if Active(st, x) then st.(cids := st.cids[x := st.cids[x] + 1]) else st
    case Commit(x) => if Active(st, x) then st.(xacts := st.xacts[x := Committed]) else st
    case Abort(x) => if Active(st, x) then st.(xacts := st.xacts[x := Aborted]) else st
    case Insert(x, data) =>
      if Active(st, x) then st.(rows := st.rows + [Fresh(|st.rows|, data, x, st.cids[x])]) else st
    case Update(x, i, data) =>
      if Active(st, x) && i < |st.rows| && Check(st, st.rows[i], x) == Outcome.Ok
      then Replaced(st, i, Stamped(st.rows[i], x, st.cids[x], false), [Fresh(st.rows[i].key, data, x, st.cids[x])])
      else st
    case Delete(x, i) =>
      if Active(st, x) && i < |st.rows| && Check(st, st.rows[i], x) == Outcome.Ok
      then Replaced(st, i, Stamped(st.rows[i], x, st.cids[x], true), [])
      else st
  }

  function Replaced<T>(st: State<T>, i: nat, v: Version<T>, more: seq<Version<T>>): State<T>
    requires i < |st.rows|
  {
    st.(rows := st.rows[i := v] + more)
  }

  function Run<T>(st: State<T>, ops: seq<Op<T>>): State<T>
    decreases |ops|
  {
    if ops == [] then st else Run(Step(st, ops[0]), ops[1..])
  }

  // ---------------------------------------------------------------- what every step keeps

  /** One version's stamps make sense: nobody but its own transaction has touched a row that is
      still uncommitted, and commands only go forward. */
  ghost predicate RowOk<T>(st: State<T>, i: nat)
    requires i < |st.rows|
  {
    var v := st.rows[i];
    && v.key <= i
    && v.xmin in st.xacts && v.xmin in st.cids && v.xmin != 0 && v.cmin <= st.cids[v.xmin]
    && (v.xmax != 0 ==> v.xmax in st.xacts && v.xmax in st.cids && v.cmax <= st.cids[v.xmax])
    && (v.xmax == v.xmin ==> v.cmin <= v.cmax)
    && (InProgress(st, v.xmin) ==> v.xmax == 0 || v.xmax == v.xmin)
  }

  /** Of two versions of a row that have not been rolled back, the earlier one was superseded
      no later than the other began. */
  ghost predicate PairOk<T>(st: State<T>, i: nat, j: nat)
    requires i < j < |st.rows|
  {
    var v, w := st.rows[i], st.rows[j];
    v.key == w.key && !DidAbort(st, v.xmin) && !DidAbort(st, w.xmin) ==>
      && v.xmax != 0 && !DidAbort(st, v.xmax)
      && (DidCommit(st, v.xmax) || (v.xmax == w.xmin && v.cmax <= w.cmin))
  }

  /** A version that was updated away has its successor later in the file, stamped alike. */
  ghost predicate NextOk<T>(st: State<T>, i: nat)
    requires i < |st.rows|
  {
    var v := st.rows[i];
    v.xmax != 0 && !DidAbort(st, v.xmax) && !v.erased ==> HasSuccessor(st.rows, i)
  }

  ghost predicate HasSuccessor<T>(rows: seq<Version<T>>, i: nat)
    requires i < |rows|
  {
    exists j :: i < j < |rows| && Follows(rows, i, j)
  }

  ghost predicate Follows<T>(rows: seq<Version<T>>, i: nat, j: nat)
    requires i < |rows| && j < |rows|
  {
    rows[j].key == rows[i].key && rows[j].xmin == rows[i].xmax && rows[j].cmin == rows[i].cmax
  }

  ghost predicate Valid<T>(st: State<T>) {
    && 0 !in st.xacts
    && (forall i :: 0 <= i < |st.rows| ==> RowOk(st, i))
    && (forall i, j :: 0 <= i < j < |st.rows| ==> PairOk(st, i, j))
    && (forall i :: 0 <= i < |st.rows| ==> NextOk(st, i))
  }

  function Empty<T>(): State<T> { State(map[], map[], []) }

  /** Beginning, ending or moving on to the next command leaves the rows' relations as they were. */
  lemma ClockKeeps<T>(st: State<T>, op: Op<T>)
    requires Valid(st) && (op.Begin? || op.NextCommand? || op.Commit? || op.Abort?)
    ensures Valid(Step(st, op))
  {
    var st' := Step(st, op);
    forall i | 0 <= i < |st'.rows| ensures RowOk(st', i) && NextOk(st', i) {
      assert RowOk(st, i) && NextOk(st, i);
    }
    forall i, j | 0 <= i < j < |st'.rows| ensures PairOk(st', i, j) {
      assert PairOk(st, i, j) && RowOk(st, i) && RowOk(st, j);
    }
  }

  lemma InsertKeeps<T>(st: State<T>, x: nat, data: T)
    requires Valid(st)
    ensures Valid(Step(st, Insert(x, data)))
  {
    if Active(st, x) {
      var st' := Step(st, Insert(x, data));
      var n := |st.rows|;
      forall i | 0 <= i < |st'.rows| ensures RowOk(st', i) && NextOk(st', i) {
        if i < n {
          assert RowOk(st, i) && NextOk(st, i);
          SuccessorStays(st.rows, st'.rows, i);
        }
      }
      forall i, j | 0 <= i < j < |st'.rows| ensures PairOk(st', i, j) {
        assert RowOk(st, i);
        assert j < n ==> PairOk(st, i, j);
      }
    }
  }

  lemma SuccessorStays<T>(rows: seq<Version<T>>, rows': seq<Version<T>>, i: nat)
    requires i < |rows| <= |rows'| && rows'[i] == rows[i]
    requires forall j :: 0 <= j < |rows| ==>
      rows'[j].key == rows[j].key && rows'[j].xmin == rows[j].xmin && rows'[j].cmin == rows[j].cmin
    ensures HasSuccessor(rows, i) ==> HasSuccessor(rows', i)
  {
    if HasSuccessor(rows, i) {
      var j :| i < j < |rows| && Follows(rows, i, j);
      assert Follows(rows', i, j);
    }
  }

  /** The newest version that was not rolled back is the only one anybody can supersede. */
  lemma NothingAfter<T>(st: State<T>, x: nat, i: nat, j: nat)
    requires Valid(st) && i < j < |st.rows| && st.rows[i].key == st.rows[j].key
    requires Check(st, st.rows[i], x) == Outcome.Ok && Active(st, x)
    ensures DidAbort(st, st.rows[j].xmin)
  {
    assert PairOk(st, i, j) && RowOk(st, i);
  }

  /** What both an update and a delete do to the superseded version. */
  ghost predicate Supersedes<T>(st: State<T>, st': State<T>, x: nat, i: nat, erased: bool) {
    && Active(st, x) && i < |st.rows| <= |st'.rows|
    && Check(st, st.rows[i], x) == Outcome.Ok
    && st'.xacts == st.xacts && st'.cids == st.cids
    && st'.rows[i] == Stamped(st.rows[i], x, st.cids[x], erased)
    && forall j :: 0 <= j < |st.rows| && j != i ==> st'.rows[j] == st.rows[j]
  }

  lemma SupersedeRow<T>(st: State<T>, st': State<T>, x: nat, i: nat, erased: bool, k: nat)
    requires Valid(st) && Supersedes(st, st', x, i, erased) && k < |st.rows|
    ensures RowOk(st', k)
    ensures k != i ==> NextOk(st', k)
  {
    assert RowOk(st, k) && NextOk(st, k);
    if k != i { SuccessorStays(st.rows, st'.rows, k); }
  }

  lemma SupersedePair<T>(st: State<T>, st': State<T>, x: nat, i: nat, erased: bool, k: nat, j: nat)
    requires Valid(st) && Supersedes(st, st', x, i, erased) && k < j < |st.rows|
    ensures PairOk(st', k, j)
  {
    assert PairOk(st, k, j);
    if k == i && st.rows[k].key == st.rows[j].key { NothingAfter(st, x, i, j); }
  }

  lemma DeleteKeeps<T>(st: State<T>, x: nat, i: nat)
    requires Valid(st)
    ensures Valid(Step(st, Delete(x, i)))
  {
    var st' := Step(st, Delete(x, i));
    if st' != st {
      forall k | 0 <= k < |st'.rows| ensures RowOk(st', k) && NextOk(st', k) {
        SupersedeRow(st, st', x, i, true, k);
      }
      forall k, j | 0 <= k < j < |st'.rows| ensures PairOk(st', k, j) {
        SupersedePair(st, st', x, i, true, k, j);
      }
    }
  }

  /** The new version against an older one of its row. */
  lemma UpdatePair<T>(st: State<T>, st': State<T>, x: nat, i: nat, data: T, k: nat)
    requires Valid(st) && Active(st, x) && i < |st.rows| && Check(st, st.rows[i], x) == Outcome.Ok
    requires st' == Step(st, Update(x, i, data)) && k < |st.rows|
    ensures PairOk(st', k, |st.rows|)
  {
    assert RowOk(st, k) && RowOk(st, i);
    if k < i {
      assert PairOk(st, k, i);
    } else if k > i && st.rows[k].key == st.rows[i].key {
      NothingAfter(st, x, i, k);
    }
  }

  lemma UpdateKeeps<T>(st: State<T>, x: nat, i: nat, data: T)
    requires Valid(st)
    ensures Valid(Step(st, Update(x, i, data)))
  {
    var st' := Step(st, Update(x, i, data));
    if Active(st, x) && i < |st.rows| && Check(st, st.rows[i], x) == Outcome.Ok {
      var n := |st.rows|;
      assert RowOk(st, i);
      forall k | 0 <= k < |st'.rows| ensures RowOk(st', k) && NextOk(st', k) {
        if k < n { SupersedeRow(st, st', x, i, false, k); }
        assert Follows(st'.rows, i, n);
      }
      forall k, j | 0 <= k < j < |st'.rows| ensures PairOk(st', k, j) {
        if j < n {
          SupersedePair(st, st', x, i, false, k, j);
        } else {
          UpdatePair(st, st', x, i, data, k);
        }
      }
    }
  }

  lemma StepKeeps<T>(st: State<T>, op: Op<T>)
    requires Valid(st)
    ensures Valid(Step(st, op))
  {
    match op
    case Insert(x, data) => InsertKeeps(st, x, data);
    case Update(x, i, data) => UpdateKeeps(st, x, i, data);
    case Delete(x, i) => DeleteKeeps(st, x, i);
    case _ => ClockKeeps(st, op);
  }

  lemma {:induction false} RunKeeps<T>(st: State<T>, ops: seq<Op<T>>)
    requires Valid(st)
    ensures Valid(Run(st, ops))
    decreases |ops|
  {
    if ops != [] {
      StepKeeps(st, ops[0]);
      RunKeeps(Step(st, ops[0]), ops[1..]);
    }
  }
}
