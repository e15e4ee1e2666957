/** Object keys: the length-first order, and unique-ifying with the last observed value. */
module GtypeKeys {
  type Byte = x: int | 0 <= x < 256
  type Bytes = seq<Byte>

  /** memcmp < 0 on strings of one length */
  predicate Memcmp(a: Bytes, b: Bytes)
    requires |a| == |b|
  {
    a != [] && (a[0] < b[0] || (a[0] == b[0] && Memcmp(a[1..], b[1..])))
  }

  /** length_compare_gtype_string_value < 0 */
  predicate KeyLess(a: Bytes, b: Bytes) {
    |a| < |b| || (|a| == |b| && Memcmp(a, b))
  }

  lemma {:induction false} MemcmpTotal(a: Bytes, b: Bytes)
    requires |a| == |b|
    ensures a == b || Memcmp(a, b) || Memcmp(b, a)
    ensures !(Memcmp(a, b) && Memcmp(b, a)) && (a == b ==> !Memcmp(a, b))
  {
    if a != [] {
      MemcmpTotal(a[1..], b[1..]);
      assert a == [a[0]] + a[1..] && b == [b[0]] + b[1..];
    }
  }

  lemma {:induction false} MemcmpTransitive(a: Bytes, b: Bytes, c: Bytes)
    requires |a| == |b| == |c| && Memcmp(a, b) && Memcmp(b, c)
    ensures Memcmp(a, c)
  {
    if a[0] == b[0] == c[0] {
      MemcmpTransitive(a[1..], b[1..], c[1..]);
    }
  }

  lemma KeyTotal(a: Bytes, b: Bytes)
    ensures a == b || KeyLess(a, b) || KeyLess(b, a)
    ensures !(KeyLess(a, b) && KeyLess(b, a)) && (a == b ==> !KeyLess(a, b))
  {
    if |a| == |b| { MemcmpTotal(a, b); }
  }

  lemma KeyTransitive(a: Bytes, b: Bytes, c: Bytes)
    requires KeyLess(a, b) && KeyLess(b, c)
    ensures KeyLess(a, c)
  {
    if |a| == |b| == |c| { MemcmpTransitive(a, b, c); }
  }

  /** The strings agree up to p, where the first has the smaller byte. */
  predicate SmallerAt(a: Bytes, b: Bytes, p: nat) {
    p < |a| && p < |b| && a[..p] == b[..p] && a[p] < b[p]
  }

  /** Shorter keys first, keys of one length by the first byte in which they differ. */
  ghost predicate ShorterOrSmaller(a: Bytes, b: Bytes) {
    |a| < |b| || (|a| == |b| && exists p: nat :: SmallerAt(a, b, p))
  }

  lemma {:induction false} MemcmpIs(a: Bytes, b: Bytes)
    requires |a| == |b|
    ensures Memcmp(a, b) <==> exists p: nat :: SmallerAt(a, b, p)
  {
    if a != [] {
      MemcmpIs(a[1..], b[1..]);
      if a[0] < b[0] {
        assert a[..0] == b[..0];
        assert SmallerAt(a, b, 0);
      } else if a[0] == b[0] && Memcmp(a, b) {
        var p: nat :| SmallerAt(a[1..], b[1..], p);
        assert a[..p + 1] == [a[0]] + a[1..][..p] && b[..p + 1] == [b[0]] + b[1..][..p];
        assert SmallerAt(a, b, p + 1);
      }
      if p: nat :| SmallerAt(a, b, p) {
        if p > 0 {
          assert a[0] == a[..p][0] && b[0] == b[..p][0];
          assert a[1..][..p - 1] == a[..p][1..] && b[1..][..p - 1] == b[..p][1..];
          assert SmallerAt(a[1..], b[1..], p - 1);
        }
      }
    }
  }

  lemma KeyLessIs(a: Bytes, b: Bytes)
    ensures KeyLess(a, b) <==> ShorterOrSmaller(a, b)
  {
    if |a| == |b| { MemcmpIs(a, b); }
  }

  // ---------------------------------------------------------------- the reference definition

  datatype Pair<V> = Pair(key: Bytes, value: V)

  ghost predicate Increasing<V>(ps: seq<Pair<V>>) {
    forall i, j :: 0 <= i < j < |ps| ==> KeyLess(ps[i].key, ps[j].key)
  }

  /** Put a pair in its place; an equal key gives way. */
  function Put<V>(ps: seq<Pair<V>>, p: Pair<V>): seq<Pair<V>> {
    if ps == [] then [p]
    else if ps[0].key == p.key then [p] + ps[1..]
    else if KeyLess(ps[0].key, p.key) then [ps[0]] + Put(ps[1..], p)
    else [p] + ps
  }

  /** Later pairs overwrite earlier ones with the same key. */
  function Normalize<V>(ps: seq<Pair<V>>): seq<Pair<V>> {
    if ps == [] then [] else Put(Normalize(ps[..|ps| - 1]), ps[|ps| - 1])
  }

  /** Putting keeps the order, and changes nothing but the pair of its own key. */
  lemma {:induction false} PutKeeps<V>(ps: seq<Pair<V>>, p: Pair<V>)
    requires Increasing(ps)
    ensures Increasing(Put(ps, p))
    ensures forall q :: q in Put(ps, p) ==> q == p || (q in ps && q.key != p.key)
    ensures forall q :: q == p || (q in ps && q.key != p.key) ==> q in Put(ps, p)
  {
    if ps != [] {
      var rest := ps[1..];
      assert ps == [ps[0]] + rest;
      TailAbove(ps);
      KeyTotal(ps[0].key, p.key);
      if ps[0].key == p.key {
        ConsIncreasing(p, rest);
      } else if KeyLess(ps[0].key, p.key) {
        PutKeeps(rest, p);
        forall q | q in Put(rest, p) ensures KeyLess(ps[0].key, q.key) {
          assert q == p || q in rest;
        }
        ConsIncreasing(ps[0], Put(rest, p));
      } else {
        forall q | q in ps ensures KeyLess(p.key, q.key) && q.key != p.key {
          if q != ps[0] { KeyTransitive(p.key, ps[0].key, q.key); }
          KeyTotal(p.key, q.key);
        }
        ConsIncreasing(p, ps);
      }
    }
  }

  lemma TailAbove<V>(ps: seq<Pair<V>>)
    requires Increasing(ps) && ps != []
    ensures Increasing(ps[1..]) && forall q :: q in ps[1..] ==> KeyLess(ps[0].key, q.key) && q.key != ps[0].key
  {
    var rest := ps[1..];
    forall q | q in rest ensures KeyLess(ps[0].key, q.key) && q.key != ps[0].key {
      var i :| 0 <= i < |rest| && rest[i] == q;
      assert ps[i + 1] == q;
      KeyTotal(ps[0].key, q.key);
    }
  }

  lemma ConsIncreasing<V>(p: Pair<V>, ps: seq<Pair<V>>)
    requires Increasing(ps) && forall q :: q in ps ==> KeyLess(p.key, q.key)
    ensures Increasing([p] + ps)
  {
    forall i, j | 0 <= i < j < |[p] + ps| ensures KeyLess(([p] + ps)[i].key, ([p] + ps)[j].key) {
      if i == 0 { assert ps[j - 1] in ps; }
    }
  }

  /** q is the last pair of its key. */
  ghost predicate LastOf<V>(ps: seq<Pair<V>>, q: Pair<V>) {
    exists i :: 0 <= i < |ps| && ps[i] == q && forall j :: i < j < |ps| ==> ps[j].key != q.key
  }

  /** The normal form is strictly increasing and holds exactly the last pair of every key. */
  lemma {:induction false} NormalizeIs<V>(ps: seq<Pair<V>>)
    ensures Increasing(Normalize(ps))
    ensures forall q :: q in Normalize(ps) <==> LastOf(ps, q)
  {
    if ps != [] {
      var n := |ps| - 1;
      var init, p := ps[..n], ps[n];
      NormalizeIs(init);
      PutKeeps(Normalize(init), p);
      forall q ensures LastOf(ps, q) <==> q == p || (LastOf(init, q) && q.key != p.key) {
        LastStep(ps, q);
      }
    }
  }

  /** In lengths and bytes: of two keys of the normal form the earlier one is shorter, or as long and
      smaller where they first differ. */
  lemma NormalizeOrder<V>(ps: seq<Pair<V>>, i: nat, j: nat)
    requires i < j < |Normalize(ps)|
    ensures ShorterOrSmaller(Normalize(ps)[i].key, Normalize(ps)[j].key)
  {
    NormalizeIs(ps);
    KeyLessIs(Normalize(ps)[i].key, Normalize(ps)[j].key);
  }

  lemma LastStep<V>(ps: seq<Pair<V>>, q: Pair<V>)
    requires ps != []
    ensures var n := |ps| - 1; LastOf(ps, q) <==> q == ps[n] || (LastOf(ps[..n], q) && q.key != ps[n].key)
  {
    var n := |ps| - 1;
    var init := ps[..n];
    if q == ps[n] {
      assert ps[n] == q;
    } else if LastOf(ps, q) {
      var i :| 0 <= i < |ps| && ps[i] == q && forall j :: i < j < |ps| ==> ps[j].key != q.key;
      assert init[i] == q && forall j :: i < j < |init| ==> init[j].key != q.key;
      assert ps[n].key != q.key;
    } else if LastOf(init, q) && q.key != ps[n].key {
      var i :| 0 <= i < |init| && init[i] == q && forall j :: i < j < |init| ==> init[j].key != q.key;
      assert ps[i] == q;
      forall j | i < j < |ps| ensures ps[j].key != q.key {
        if j < n { assert init[j] == ps[j]; }
      }
    }
  }

  /** Two increasing lists with the same members are the same list. */
  lemma {:induction false} IncreasingUnique<V(!new)>(a: seq<Pair<V>>, b: seq<Pair<V>>)
    requires Increasing(a) && Increasing(b) && forall q :: q in a <==> q in b
    ensures a == b
  {
    SameEmpty(a, b);
    SameEmpty(b, a);
    if a != [] {
      assert a[0] in a;
      assert a[0] in b;
      assert b[0] in a;
      var i :| 0 <= i < |b| && b[i] == a[0];
      var j :| 0 <= j < |a| && a[j] == b[0];
      KeyTotal(a[0].key, b[0].key);
      HeadLess(b, i);
      HeadLess(a, j);
      assert a[0] == b[0];
      forall q ensures q in a[1..] <==> q in b[1..] {
        TailMember(a, q);
        TailMember(b, q);
      }
      IncreasingUnique(a[1..], b[1..]);
      assert a == [a[0]] + a[1..] && b == [b[0]] + b[1..];
    }
  }

  lemma SameEmpty<V(!new)>(a: seq<Pair<V>>, b: seq<Pair<V>>)
    requires forall q :: q in a ==> q in b
    ensures a != [] ==> b != []
  {
    if a != [] { assert a[0] in a; }
  }

  lemma HeadLess<V>(a: seq<Pair<V>>, i: nat)
    requires Increasing(a) && i < |a|
    ensures i == 0 || KeyLess(a[0].key, a[i].key)
  {
  }

  lemma TailMember<V>(a: seq<Pair<V>>, q: Pair<V>)
    requires a != [] && Increasing(a)
    ensures q in a[1..] <==> q in a && q != a[0]
  {
    if q in a && q != a[0] {
      var i :| 0 <= i < |a| && a[i] == q;
      assert a[1..][i - 1] == q;
    }
    if q in a[1..] {
      var i :| 0 <= i < |a[1..]| && a[1..][i] == q;
      assert a[i + 1] == q;
      KeyTotal(a[0].key, q.key);
    }
  }

  lemma {:induction false} LastOfIncreasing<V>(ps: seq<Pair<V>>, q: Pair<V>)
    requires Increasing(ps)
    ensures LastOf(ps, q) <==> q in ps
  {
    if q in ps {
      var i :| 0 <= i < |ps| && ps[i] == q;
      forall j | i < j < |ps| ensures ps[j].key != q.key { KeyTotal(ps[i].key, ps[j].key); }
    }
  }

  /** Normalising changes nothing the second time, nor on any sorted unique object. */
  lemma NormalizeStable<V(!new)>(ps: seq<Pair<V>>)
    ensures Increasing(ps) ==> Normalize(ps) == ps
    ensures Normalize(Normalize(ps)) == Normalize(ps)
  {
    NormalizeIs(ps);
    SortedIsNormal(Normalize(ps));
    if Increasing(ps) { SortedIsNormal(ps); }
  }

  lemma SortedIsNormal<V(!new)>(ps: seq<Pair<V>>)
    requires Increasing(ps)
    ensures Normalize(ps) == ps
  {
    NormalizeIs(ps);
    forall q ensures q in Normalize(ps) <==> q in ps { LastOfIncreasing(ps, q); }
    IncreasingUnique(Normalize(ps), ps);
  }

  // ---------------------------------------------------------------- uniqueify_gtype_object

  /** A pair with the position it was observed at. */
  datatype Observed<V> = Observed(p: Pair<V>, order: nat)

  /** length_compare_gtype_pair < 0: equal keys come latest first. */
  predicate Precedes<V>(a: Observed<V>, b: Observed<V>) {
    KeyLess(a.p.key, b.p.key) || (a.p.key == b.p.key && a.order > b.order)
  }

  /** What the library sort leaves in the pairs array. */
  ghost predicate SortOf<V>(os: seq<Observed<V>>, ps: seq<Pair<V>>) {
    && |os| == |ps|
    && (forall i :: 0 <= i < |os| ==> os[i].order < |ps| && os[i].p == ps[os[i].order])
    && (forall n :: 0 <= n < |ps| ==> Present(os, n))
    && (forall i, j :: 0 <= i < j < |os| ==> Precedes(os[i], os[j]))
  }

  ghost predicate Present<V>(os: seq<Observed<V>>, n: nat) {
    exists i :: 0 <= i < |os| && os[i].order == n
  }

  /** The first entries of the runs of equal keys among os[..n]. */
  ghost predicate FirstsOf<V(!new)>(r: seq<Observed<V>>, os: seq<Observed<V>>, n: nat)
    requires n <= |os|
  {
    && (forall i, j :: 0 <= i < j < |r| ==> KeyLess(r[i].p.key, r[j].p.key))
    && (forall q :: q in r <==> exists i :: 0 <= i < n && os[i] == q && FirstAt(os, i))
    && (n > 0 ==> r != [] && r[|r| - 1].p.key == os[n - 1].p.key)
  }

  predicate FirstAt<V>(os: seq<Observed<V>>, i: nat)
    requires i < |os|
  {
    i == 0 || os[i - 1].p.key != os[i].p.key
  }

  lemma FirstsStep<V(!new)>(r: seq<Observed<V>>, os: seq<Observed<V>>, ps: seq<Pair<V>>, n: nat)
    requires SortOf(os, ps) && 0 < n < |os| && FirstsOf(r, os, n)
    ensures os[n].p.key == r[|r| - 1].p.key ==> FirstsOf(r, os, n + 1)
    ensures os[n].p.key != r[|r| - 1].p.key ==> FirstsOf(r + [os[n]], os, n + 1)
  {
    assert Precedes(os[n - 1], os[n]);
    var last := r[|r| - 1];
    if os[n].p.key == last.p.key {
      assert !FirstAt(os, n);
    } else {
      assert KeyLess(last.p.key, os[n].p.key) && FirstAt(os, n);
      forall i | 0 <= i < |r| ensures KeyLess(r[i].p.key, os[n].p.key) {
        if i < |r| - 1 { KeyTransitive(r[i].p.key, last.p.key, os[n].p.key); }
      }
      var r' := r + [os[n]];
      forall q ensures q in r' <==> exists i :: 0 <= i < n + 1 && os[i] == q && FirstAt(os, i) {
        if q in r {
          var i :| 0 <= i < n && os[i] == q && FirstAt(os, i);
        } else if q == os[n] {
          assert os[n] == q && FirstAt(os, n);
        }
      }
    }
  }

  /** The head of a run is the pair observed last under its key. */
  lemma FirstIsLast<V>(os: seq<Observed<V>>, ps: seq<Pair<V>>, i: nat)
    requires SortOf(os, ps) && i < |os| && FirstAt(os, i)
    ensures LastOf(ps, os[i].p)
  {
    var n := os[i].order;
    forall m | n < m < |ps| ensures ps[m].key != os[i].p.key {
      assert Present(os, m);
      var j :| 0 <= j < |os| && os[j].order == m;
      KeyTotal(os[i].p.key, os[j].p.key);
      if j < i {
        RunApart(os, ps, j, i);
      } else if j > i {
        assert Precedes(os[i], os[j]);
      }
    }
  }

  lemma RunApart<V>(os: seq<Observed<V>>, ps: seq<Pair<V>>, j: nat, i: nat)
    requires SortOf(os, ps) && j < i < |os| && FirstAt(os, i)
    ensures os[j].p.key != os[i].p.key
  {
    assert Precedes(os[i - 1], os[i]);
    KeyTotal(os[j].p.key, os[i].p.key);
    if j < i - 1 {
      assert Precedes(os[j], os[i - 1]);
      if KeyLess(os[j].p.key, os[i - 1].p.key) {
        KeyTransitive(os[j].p.key, os[i - 1].p.key, os[i].p.key);
      }
    }
  }

  lemma LastIsFirst<V>(os: seq<Observed<V>>, ps: seq<Pair<V>>, q: Pair<V>) returns (i: nat)
    requires SortOf(os, ps) && LastOf(ps, q)
    ensures i < |os| && os[i].p == q && FirstAt(os, i)
  {
    var n :| 0 <= n < |ps| && ps[n] == q && forall j :: n < j < |ps| ==> ps[j].key != q.key;
    assert Present(os, n);
    i :| 0 <= i < |os| && os[i].order == n;
    if i > 0 {
      assert Precedes(os[i - 1], os[i]);
      KeyTotal(os[i - 1].p.key, os[i].p.key);
    }
  }

  function Pairs<V>(os: seq<Observed<V>>): (r: seq<Pair<V>>)
    ensures |r| == |os| && forall i :: 0 <= i < |os| ==> r[i] == os[i].p
  {
    seq(|os|, i requires 0 <= i < |os| => os[i].p)
  }

  lemma FirstsAreNormal<V(!new)>(r: seq<Observed<V>>, os: seq<Observed<V>>, ps: seq<Pair<V>>)
    requires SortOf(os, ps) && FirstsOf(r, os, |os|)
    ensures Pairs(r) == Normalize(ps)
  {
    NormalizeIs(ps);
    forall q ensures q in Pairs(r) <==> q in Normalize(ps) {
      if q in Pairs(r) {
        var i :| 0 <= i < |r| && Pairs(r)[i] == q;
        assert r[i] in r;
        var j :| 0 <= j < |os| && os[j] == r[i] && FirstAt(os, j);
        FirstIsLast(os, ps, j);
      }
      if q in Normalize(ps) {
        var j := LastIsFirst(os, ps, q);
        assert os[j] in r;
        var i :| 0 <= i < |r| && r[i] == os[j];
        assert Pairs(r)[i] == q;
      }
    }
    IncreasingUnique(Pairs(r), Normalize(ps));
  }

  lemma NoDuplicates<V(!new)>(os: seq<Observed<V>>, ps: seq<Pair<V>>)
    requires SortOf(os, ps) && forall i :: 0 < i < |os| ==> os[i - 1].p.key != os[i].p.key
    ensures FirstsOf(os, os, |os|)
  {
    forall i, j | 0 <= i < j < |os| ensures KeyLess(os[i].p.key, os[j].p.key) {
      RunApart(os, ps, i, j);
      assert Precedes(os[i], os[j]);
    }
    forall q | q in os ensures exists i :: 0 <= i < |os| && os[i] == q && FirstAt(os, i) {
      var i :| 0 <= i < |os| && os[i] == q;
      assert FirstAt(os, i);
    }
  }

  /** uniqueify_gtype_object after the sort. `hasNonUniq` is what the comparator reported: it is
      set whenever two equal keys ended up next to each other, and fewer than two pairs are
      not sorted at all. */
  method Uniqueify<V(!new)>(a: array<Observed<V>>, hasNonUniq: bool, ghost ps: seq<Pair<V>>) returns (n: nat)
    requires SortOf(a[..], ps)
    requires (exists i :: 0 < i < a.Length && a[i - 1].p.key == a[i].p.key) ==> hasNonUniq
    requires hasNonUniq ==> a.Length > 1
    modifies a
    ensures n <= a.Length && Pairs(a[..n]) == Normalize(ps)
  {
    ghost var os := a[..];
    if !hasNonUniq {
      forall i | 0 < i < |os| ensures os[i - 1].p.key != os[i].p.key {
        assert a[i - 1].p.key != a[i].p.key;
      }
      NoDuplicates(os, ps);
      FirstsAreNormal(os, os, ps);
      assert a[..a.Length] == os;
      return a.Length;
    }
    var ptr, res := 1, 0;
    StartFirsts(os);
    assert a[..1] == os[..1];
    while ptr < a.Length
      invariant 0 <= res < ptr <= a.Length
      invariant forall i :: ptr <= i < a.Length ==> a[i] == os[i]
      invariant FirstsOf(a[..res + 1], os, ptr)
    {
      FirstsStep(a[..res + 1], os, ps, ptr);
      ghost var kept := a[..res + 1];
      if a[ptr].p.key != a[res].p.key {
        res := res + 1;
        if ptr != res {
          a[res] := a[ptr];
        }
        assert a[..res + 1] == kept + [os[ptr]];
      }
      ptr := ptr + 1;
    }
    n := res + 1;
    FirstsAreNormal(a[..n], os, ps);
  }

  lemma StartFirsts<V(!new)>(os: seq<Observed<V>>)
    requires os != []
    ensures FirstsOf(os[..1], os, 1)
  {
    assert FirstAt(os, 0) && os[..1][0] == os[0];
  }

  // ---------------------------------------------------------------- the sort before it

  ghost predicate Ordered<V>(os: seq<Observed<V>>) {
    forall i, j :: 0 <= i < j < |os| ==> Precedes(os[i], os[j])
  }

  lemma PrecedesOrder<V>(a: Observed<V>, b: Observed<V>, c: Observed<V>)
    ensures Precedes(a, b) && Precedes(b, c) ==> Precedes(a, c)
    ensures a.order != b.order ==> Precedes(a, b) || Precedes(b, a)
  {
    KeyTotal(a.p.key, b.p.key);
    if KeyLess(a.p.key, b.p.key) && KeyLess(b.p.key, c.p.key) { KeyTransitive(a.p.key, b.p.key, c.p.key); }
  }

  function Insert<V>(os: seq<Observed<V>>, o: Observed<V>): seq<Observed<V>> {
    if os == [] then [o]
    else if Precedes(os[|os| - 1], o) then os + [o]
    else Insert(os[..|os| - 1], o) + [os[|os| - 1]]
  }

  lemma {:induction false} InsertKeeps<V>(os: seq<Observed<V>>, o: Observed<V>)
    requires Ordered(os) && forall i :: 0 <= i < |os| ==> os[i].order != o.order
    ensures Ordered(Insert(os, o)) && |Insert(os, o)| == |os| + 1
    ensures forall x :: x in Insert(os, o) ==> x in os || x == o
    ensures forall x :: x in os || x == o ==> x in Insert(os, o)
  {
    if os != [] {
      var n := |os| - 1;
      var init, last := os[..n], os[n];
      assert os == init + [last];
      if Precedes(last, o) {
        forall i | 0 <= i < n ensures Precedes(os[i], o) { PrecedesOrder(os[i], last, o); }
      } else {
        InsertKeeps(init, o);
        PrecedesOrder(o, last, last);
        var r := Insert(init, o);
        forall i | 0 <= i < |r| ensures Precedes(r[i], last) {
          assert r[i] in r;
          if r[i] != o {
            var j :| 0 <= j < n && init[j] == r[i];
            assert Precedes(os[j], os[n]);
          }
        }
      }
    }
  }

  /** A sort of the observed pairs by length_compare_gtype_pair. */
  method SortPairs<V>(ps: seq<Pair<V>>) returns (os: seq<Observed<V>>)
    ensures SortOf(os, ps)
  {
    os := [];
    var k := 0;
    while k < |ps|
      invariant 0 <= k <= |ps| && |os| == k && Ordered(os)
      invariant forall i :: 0 <= i < k ==> os[i].order < k && os[i].p == ps[os[i].order]
      invariant forall n :: 0 <= n < k ==> Present(os, n)
    {
      var o := Observed(ps[k], k);
      InsertKeeps(os, o);
      ghost var was := os;
      os := Insert(os, o);
      forall n | 0 <= n < k + 1 ensures Present(os, n) {
        if n < k {
          assert Present(was, n);
          var i :| 0 <= i < |was| && was[i].order == n;
          assert was[i] in os;
        } else {
          assert o in os;
        }
      }
      forall i | 0 <= i < |os| ensures os[i].order < k + 1 && os[i].p == ps[os[i].order] {
        assert os[i] in os;
      }
      k := k + 1;
    }
  }

  /** uniqueify_gtype_object as its caller sees it. */
  method UniquePairs<V(!new)>(ps: seq<Pair<V>>) returns (r: seq<Pair<V>>)
    ensures r == Normalize(ps)
    ensures forall i, j :: 0 <= i < j < |r| ==> ShorterOrSmaller(r[i].key, r[j].key)
    ensures forall q :: q in r <==> LastOf(ps, q)
  {
    var os := SortPairs(ps);
    var a := new Observed<V>[|os|](i requires 0 <= i < |os| => os[i]);
    assert a[..] == os;
    var hasNonUniq := exists i :: 0 < i < |os| && os[i - 1].p.key == os[i].p.key;
    var n := Uniqueify(a, hasNonUniq, ps);
    r := Pairs(a[..n]);
    NormalizeIs(ps);
    forall i, j | 0 <= i < j < |r| ensures ShorterOrSmaller(r[i].key, r[j].key) { NormalizeOrder(ps, i, j); }
  }
}
