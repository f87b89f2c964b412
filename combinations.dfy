/**
 * Pairs i < j and triples i < j < k of positions below a bound `n`, visited in
 * the order of nested loops `for i`, `for j in i+1..`, `for k in j+1..`, and
 * the values a decision function keeps along the way. Everything here is
 * generic in the decision, so the order, completeness and count laws are
 * proved once for every kind of site.
 */
module Combinations {
  import opened Common

  datatype Pair = Pair(i: nat, j: nat)
  datatype Triple = Triple(i: nat, j: nat, k: nat)

  /** Lexicographic order on pairs. */
  predicate PairLess(p: Pair, q: Pair)
  {
    p.i < q.i || (p.i == q.i && p.j < q.j)
  }

  /** Lexicographic order on triples. */
  predicate TripleLess(s: Triple, t: Triple)
  {
    s.i < t.i || (s.i == t.i && (s.j < t.j || (s.j == t.j && s.k < t.k)))
  }

  /** Strictly increasing in lexicographic order. */
  ghost predicate PairsSorted(ps: seq<Pair>)
  {
    forall a, b :: 0 <= a < b < |ps| ==> PairLess(ps[a], ps[b])
  }

  /** Strictly increasing in lexicographic order. */
  ghost predicate TriplesSorted(ts: seq<Triple>)
  {
    forall a, b :: 0 <= a < b < |ts| ==> TripleLess(ts[a], ts[b])
  }

  lemma InLeft<T>(a: seq<T>, b: seq<T>, v: T)
    requires v in a
    ensures v in a + b
  {
  }

  lemma InRight<T>(a: seq<T>, b: seq<T>, v: T)
    requires v in b
    ensures v in a + b
  {
  }

  /** Origins of two stretches of kept values, put side by side, are the origins of the concatenation. */
  lemma OriginsConcat<P, T>(d: P -> Option<T>, o1: seq<P>, v1: seq<T>, o2: seq<P>, v2: seq<T>)
    requires |o1| == |v1| && |o2| == |v2|
    requires forall x :: 0 <= x < |o1| ==> d(o1[x]) == Some(v1[x])
    requires forall x :: 0 <= x < |o2| ==> d(o2[x]) == Some(v2[x])
    ensures forall x :: 0 <= x < |o1 + o2| ==> d((o1 + o2)[x]) == Some((v1 + v2)[x])
  {
    forall x | 0 <= x < |o1 + o2| ensures d((o1 + o2)[x]) == Some((v1 + v2)[x]) {
      if x >= |o1| {
        assert (o1 + o2)[x] == o2[x - |o1|] && (v1 + v2)[x] == v2[x - |o1|];
      }
    }
  }

  // ------------------------------------------------ pairs

  /** What `d` keeps over the pairs (i, j) with i < j < m, by ascending j. */
  function PairRow<T>(d: Pair -> Option<T>, i: nat, m: nat): seq<T>
    decreases m
  {
    if m <= i + 1 then [] else PairRow(d, i, m - 1) + OptionToSeq(d(Pair(i, m - 1)))
  }

  /** What `d` keeps over the pairs below `n` whose first position is below `i`. */
  function PairsBefore<T>(d: Pair -> Option<T>, n: nat, i: nat): seq<T>
  {
    if i == 0 then [] else PairsBefore(d, n, i - 1) + PairRow(d, i - 1, n)
  }

  /** One more step of the inner loop appends what `d` keeps of Pair(i, j). */
  lemma PairRowSnoc<T>(d: Pair -> Option<T>, i: nat, j: nat, pre: seq<T>)
    requires i < j
    ensures pre + PairRow(d, i, j + 1) == (pre + PairRow(d, i, j)) + OptionToSeq(d(Pair(i, j)))
  {
  }

  /** One more step of the outer loop appends row `i`. */
  lemma PairsBeforeSnoc<T>(d: Pair -> Option<T>, n: nat, i: nat, pre: seq<T>)
    ensures pre + PairsBefore(d, n, i + 1) == (pre + PairsBefore(d, n, i)) + PairRow(d, i, n)
  {
  }

  /** Each kept value of a row comes from its own pair (i, j), with ascending j, and every accepted pair is among them. */
  lemma {:induction false} PairRowOrigins<T>(d: Pair -> Option<T>, i: nat, m: nat) returns (o: seq<Pair>)
    ensures |o| == |PairRow(d, i, m)|
    ensures forall x :: 0 <= x < |o| ==> o[x].i == i && i < o[x].j < m && d(o[x]) == Some(PairRow(d, i, m)[x])
    ensures forall x, y :: 0 <= x < y < |o| ==> o[x].j < o[y].j
    ensures forall p: Pair :: p.i == i && i < p.j < m && d(p).Some? ==> p in o
    decreases m
  {
    if m <= i + 1 {
      o := [];
    } else {
      var prev := PairRowOrigins(d, i, m - 1);
      var p := Pair(i, m - 1);
      if d(p).Some? {
        o := prev + [p];
        forall q: Pair | q.i == i && i < q.j < m - 1 && d(q).Some? ensures q in o {
          InLeft(prev, [p], q);
        }
      } else {
        o := prev;
      }
    }
  }

  /** Every pair of a row that `d` accepts contributes its value. */
  lemma {:induction false} PairRowComplete<T>(d: Pair -> Option<T>, i: nat, m: nat, j: nat)
    requires i < j < m && d(Pair(i, j)).Some?
    ensures d(Pair(i, j)).value in PairRow(d, i, m)
    decreases m
  {
    var prev := PairRow(d, i, m - 1);
    assert PairRow(d, i, m) == prev + OptionToSeq(d(Pair(i, m - 1)));
    if j < m - 1 {
      PairRowComplete(d, i, m - 1, j);
      InLeft(prev, OptionToSeq(d(Pair(i, m - 1))), d(Pair(i, j)).value);
    }
  }

  /** A row keeps at most one value per pair. */
  lemma {:induction false} PairRowCount<T>(d: Pair -> Option<T>, i: nat, m: nat)
    ensures |PairRow(d, i, m)| + i + 1 <= m || |PairRow(d, i, m)| == 0
    decreases m
  {
    if m > i + 1 {
      PairRowCount(d, i, m - 1);
    }
  }

  /** The kept values come from pairs i < j < n in lexicographic order, one per accepted pair. */
  lemma {:induction false} PairsBeforeOrigins<T>(d: Pair -> Option<T>, n: nat, i: nat) returns (o: seq<Pair>)
    ensures |o| == |PairsBefore(d, n, i)|
    ensures forall x :: 0 <= x < |o| ==> o[x].i < i && o[x].i < o[x].j < n && d(o[x]) == Some(PairsBefore(d, n, i)[x])
    ensures PairsSorted(o)
    ensures forall p: Pair :: p.i < i && p.i < p.j < n && d(p).Some? ==> p in o
  {
    if i == 0 {
      o := [];
    } else {
      var prev := PairsBeforeOrigins(d, n, i - 1);
      var row := PairRowOrigins(d, i - 1, n);
      o := prev + row;
      OriginsConcat(d, prev, PairsBefore(d, n, i - 1), row, PairRow(d, i - 1, n));
      PairsSortedConcat(prev, row, i - 1);
      forall x | 0 <= x < |o| ensures o[x].i < i && o[x].i < o[x].j < n {
        if x >= |prev| {
          assert o[x] == row[x - |prev|];
        }
      }
      forall p: Pair | p.i < i && p.i < p.j < n && d(p).Some? ensures p in o {
        if p.i == i - 1 {
          InRight(prev, row, p);
        } else {
          InLeft(prev, row, p);
        }
      }
    }
  }

  /** Sorted pairs with first position below `i`, then a row `i` by ascending j, are sorted. */
  lemma PairsSortedConcat(a: seq<Pair>, b: seq<Pair>, i: nat)
    requires PairsSorted(a) && forall x :: 0 <= x < |a| ==> a[x].i < i
    requires forall x :: 0 <= x < |b| ==> b[x].i == i
    requires forall x, y :: 0 <= x < y < |b| ==> b[x].j < b[y].j
    ensures PairsSorted(a + b)
  {
    forall x, y | 0 <= x < y < |a + b| ensures PairLess((a + b)[x], (a + b)[y]) {
      if y < |a| {
        assert (a + b)[x] == a[x] && (a + b)[y] == a[y];
      } else if x < |a| {
        assert (a + b)[x] == a[x] && (a + b)[y] == b[y - |a|];
      } else {
        assert (a + b)[x] == b[x - |a|] && (a + b)[y] == b[y - |a|];
      }
    }
  }

  /** Every pair with first position below `i` that `d` accepts contributes its value. */
  lemma {:induction false} PairsBeforeComplete<T>(d: Pair -> Option<T>, n: nat, i: nat, p: Pair)
    requires p.i < i && p.i < p.j < n && d(p).Some?
    ensures d(p).value in PairsBefore(d, n, i)
  {
    var prev, row := PairsBefore(d, n, i - 1), PairRow(d, i - 1, n);
    assert PairsBefore(d, n, i) == prev + row;
    if p.i == i - 1 {
      PairRowComplete(d, p.i, n, p.j);
      InRight(prev, row, d(p).value);
    } else {
      PairsBeforeComplete(d, n, i - 1, p);
      InLeft(prev, row, d(p).value);
    }
  }

  /** At most (n-1) + ... + (n-i) values are kept by the first `i` rows. */
  lemma {:induction false} PairsBeforeCount<T>(d: Pair -> Option<T>, n: nat, i: nat)
    requires i <= n
    ensures 2 * |PairsBefore(d, n, i)| <= i * (2 * n - i - 1)
  {
    if i > 0 {
      PairsBeforeCount(d, n, i - 1);
      PairRowCount(d, i - 1, n);
      assert i * (2 * n - i - 1) == (i - 1) * (2 * n - (i - 1) - 1) + 2 * (n - i);
    }
  }

  /** A value is kept exactly when some pair i < j < n is accepted with it. */
  lemma PairsExactly<T>(d: Pair -> Option<T>, n: nat, v: T)
    ensures v in PairsBefore(d, n, n) <==> exists p: Pair :: p.i < p.j < n && d(p) == Some(v)
  {
    if v in PairsBefore(d, n, n) {
      var o := PairsBeforeOrigins(d, n, n);
      var x :| 0 <= x < |o| && PairsBefore(d, n, n)[x] == v;
      assert o[x].i < o[x].j < n && d(o[x]) == Some(v);
    }
    if p: Pair :| p.i < p.j < n && d(p) == Some(v) {
      PairsBeforeComplete(d, n, n, p);
    }
  }

  /** All pairs below `n` keep at most n(n-1)/2 values. */
  lemma PairsCount<T>(d: Pair -> Option<T>, n: nat)
    ensures 2 * |PairsBefore(d, n, n)| <= n * (n - 1)
  {
    PairsBeforeCount(d, n, n);
  }

  // ------------------------------------------------ triples

  /** What `d` keeps over the triples (i, j, k) with j < k < m, by ascending k. */
  function TripleRow<T>(d: Triple -> Option<T>, i: nat, j: nat, m: nat): seq<T>
    decreases m
  {
    if m <= j + 1 then [] else TripleRow(d, i, j, m - 1) + OptionToSeq(d(Triple(i, j, m - 1)))
  }

  /** What `d` keeps over the triples (i, j, k) with i < j < m and j < k < n. */
  function TriplePlane<T>(d: Triple -> Option<T>, n: nat, i: nat, m: nat): seq<T>
    decreases m
  {
    if m <= i + 1 then [] else TriplePlane(d, n, i, m - 1) + TripleRow(d, i, m - 1, n)
  }

  /** What `d` keeps over the triples below `n` whose first position is below `i`. */
  function TriplesBefore<T>(d: Triple -> Option<T>, n: nat, i: nat): seq<T>
  {
    if i == 0 then [] else TriplesBefore(d, n, i - 1) + TriplePlane(d, n, i - 1, n)
  }

  /** One more step of the innermost loop appends what `d` keeps of Triple(i, j, k). */
  lemma TripleRowSnoc<T>(d: Triple -> Option<T>, i: nat, j: nat, k: nat, pre: seq<T>)
    requires j < k
    ensures pre + TripleRow(d, i, j, k + 1) == (pre + TripleRow(d, i, j, k)) + OptionToSeq(d(Triple(i, j, k)))
  {
  }

  /** One more step of the middle loop appends row (i, j). */
  lemma TriplePlaneSnoc<T>(d: Triple -> Option<T>, n: nat, i: nat, j: nat, pre: seq<T>)
    requires i < j
    ensures pre + TriplePlane(d, n, i, j + 1) == (pre + TriplePlane(d, n, i, j)) + TripleRow(d, i, j, n)
  {
  }

  /** One more step of the outer loop appends plane `i`. */
  lemma TriplesBeforeSnoc<T>(d: Triple -> Option<T>, n: nat, i: nat, pre: seq<T>)
    ensures pre + TriplesBefore(d, n, i + 1) == (pre + TriplesBefore(d, n, i)) + TriplePlane(d, n, i, n)
  {
  }

  /** Each kept value of a row comes from its own triple (i, j, k), with ascending k, and every accepted triple is among them. */
  lemma {:induction false} TripleRowOrigins<T>(d: Triple -> Option<T>, i: nat, j: nat, m: nat) returns (o: seq<Triple>)
    ensures |o| == |TripleRow(d, i, j, m)|
    ensures forall x :: 0 <= x < |o| ==>
              o[x].i == i && o[x].j == j && j < o[x].k < m && d(o[x]) == Some(TripleRow(d, i, j, m)[x])
    ensures forall x, y :: 0 <= x < y < |o| ==> o[x].k < o[y].k
    ensures forall t: Triple :: t.i == i && t.j == j && j < t.k < m && d(t).Some? ==> t in o
    decreases m
  {
    if m <= j + 1 {
      o := [];
    } else {
      var prev := TripleRowOrigins(d, i, j, m - 1);
      var t := Triple(i, j, m - 1);
      if d(t).Some? {
        o := prev + [t];
        forall s: Triple | s.i == i && s.j == j && j < s.k < m - 1 && d(s).Some? ensures s in o {
          InLeft(prev, [t], s);
        }
      } else {
        o := prev;
      }
    }
  }

  /** Every triple of a row that `d` accepts contributes its value. */
  lemma {:induction false} TripleRowComplete<T>(d: Triple -> Option<T>, i: nat, j: nat, m: nat, k: nat)
    requires j < k < m && d(Triple(i, j, k)).Some?
    ensures d(Triple(i, j, k)).value in TripleRow(d, i, j, m)
    decreases m
  {
    var prev := TripleRow(d, i, j, m - 1);
    assert TripleRow(d, i, j, m) == prev + OptionToSeq(d(Triple(i, j, m - 1)));
    if k < m - 1 {
      TripleRowComplete(d, i, j, m - 1, k);
      InLeft(prev, OptionToSeq(d(Triple(i, j, m - 1))), d(Triple(i, j, k)).value);
    }
  }

  /** A row keeps at most one value per triple. */
  lemma {:induction false} TripleRowCount<T>(d: Triple -> Option<T>, i: nat, j: nat, m: nat)
    ensures |TripleRow(d, i, j, m)| + j + 1 <= m || |TripleRow(d, i, j, m)| == 0
    decreases m
  {
    if m > j + 1 {
      TripleRowCount(d, i, j, m - 1);
    }
  }

  /** The kept values of a plane come from triples (i, j, k), i < j < m, j < k < n, in lexicographic order, one per accepted triple. */
  lemma {:induction false} TriplePlaneOrigins<T>(d: Triple -> Option<T>, n: nat, i: nat, m: nat) returns (o: seq<Triple>)
    ensures |o| == |TriplePlane(d, n, i, m)|
    ensures forall x :: 0 <= x < |o| ==>
              o[x].i == i && i < o[x].j < m && o[x].j < o[x].k < n && d(o[x]) == Some(TriplePlane(d, n, i, m)[x])
    ensures TriplesSorted(o)
    ensures forall t: Triple :: t.i == i && i < t.j < m && t.j < t.k < n && d(t).Some? ==> t in o
    decreases m
  {
    if m <= i + 1 {
      o := [];
    } else {
      var prev := TriplePlaneOrigins(d, n, i, m - 1);
      var row := TripleRowOrigins(d, i, m - 1, n);
      o := prev + row;
      OriginsConcat(d, prev, TriplePlane(d, n, i, m - 1), row, TripleRow(d, i, m - 1, n));
      TriplesSortedConcatRow(prev, row, i, m - 1);
      forall x | 0 <= x < |o| ensures o[x].i == i && i < o[x].j < m && o[x].j < o[x].k < n {
        if x >= |prev| {
          assert o[x] == row[x - |prev|];
        }
      }
      forall t: Triple | t.i == i && i < t.j < m && t.j < t.k < n && d(t).Some? ensures t in o {
        if t.j == m - 1 {
          InRight(prev, row, t);
        } else {
          InLeft(prev, row, t);
        }
      }
    }
  }

  /** Sorted triples (i, j', k) with j' < j, then a row (i, j) by ascending k, are sorted. */
  lemma TriplesSortedConcatRow(a: seq<Triple>, b: seq<Triple>, i: nat, j: nat)
    requires TriplesSorted(a) && forall x :: 0 <= x < |a| ==> a[x].i == i && a[x].j < j
    requires forall x :: 0 <= x < |b| ==> b[x].i == i && b[x].j == j
    requires forall x, y :: 0 <= x < y < |b| ==> b[x].k < b[y].k
    ensures TriplesSorted(a + b)
  {
    forall x, y | 0 <= x < y < |a + b| ensures TripleLess((a + b)[x], (a + b)[y]) {
      if y < |a| {
        assert (a + b)[x] == a[x] && (a + b)[y] == a[y];
      } else if x < |a| {
        assert (a + b)[x] == a[x] && (a + b)[y] == b[y - |a|];
      } else {
        assert (a + b)[x] == b[x - |a|] && (a + b)[y] == b[y - |a|];
      }
    }
  }

  /** Sorted triples with first position below `i`, then sorted triples with first position `i`, are sorted. */
  lemma TriplesSortedConcatPlane(a: seq<Triple>, b: seq<Triple>, i: nat)
    requires TriplesSorted(a) && forall x :: 0 <= x < |a| ==> a[x].i < i
    requires TriplesSorted(b) && forall x :: 0 <= x < |b| ==> b[x].i == i
    ensures TriplesSorted(a + b)
  {
    forall x, y | 0 <= x < y < |a + b| ensures TripleLess((a + b)[x], (a + b)[y]) {
      if y < |a| {
        assert (a + b)[x] == a[x] && (a + b)[y] == a[y];
      } else if x < |a| {
        assert (a + b)[x] == a[x] && (a + b)[y] == b[y - |a|];
      } else {
        assert (a + b)[x] == b[x - |a|] && (a + b)[y] == b[y - |a|];
      }
    }
  }

  /** Every triple of a plane that `d` accepts contributes its value. */
  lemma {:induction false} TriplePlaneComplete<T>(d: Triple -> Option<T>, n: nat, i: nat, m: nat, t: Triple)
    requires t.i == i && i < t.j < m && t.j < t.k < n && d(t).Some?
    ensures d(t).value in TriplePlane(d, n, i, m)
    decreases m
  {
    var prev, row := TriplePlane(d, n, i, m - 1), TripleRow(d, i, m - 1, n);
    assert TriplePlane(d, n, i, m) == prev + row;
    if t.j == m - 1 {
      TripleRowComplete(d, i, t.j, n, t.k);
      InRight(prev, row, d(t).value);
    } else {
      TriplePlaneComplete(d, n, i, m - 1, t);
      InLeft(prev, row, d(t).value);
    }
  }

  /** A plane keeps at most (n-i-2) + ... + (n-m) values. */
  lemma {:induction false} TriplePlaneCount<T>(d: Triple -> Option<T>, n: nat, i: nat, m: nat)
    requires i < m <= n
    ensures 2 * |TriplePlane(d, n, i, m)| <= (m - i - 1) * (2 * n - m - i - 2)
    decreases m
  {
    if m > i + 1 {
      TriplePlaneCount(d, n, i, m - 1);
      TripleRowCount(d, i, m - 1, n);
      assert (m - i - 1) * (2 * n - m - i - 2) == (m - 1 - i - 1) * (2 * n - (m - 1) - i - 2) + 2 * (n - m);
    }
  }

  /** The kept values come from triples i < j < k < n in lexicographic order, one per accepted triple. */
  lemma {:induction false} TriplesBeforeOrigins<T>(d: Triple -> Option<T>, n: nat, i: nat) returns (o: seq<Triple>)
    ensures |o| == |TriplesBefore(d, n, i)|
    ensures forall x :: 0 <= x < |o| ==>
              o[x].i < i && o[x].i < o[x].j < o[x].k < n && d(o[x]) == Some(TriplesBefore(d, n, i)[x])
    ensures TriplesSorted(o)
    ensures forall t: Triple :: t.i < i && t.i < t.j < t.k < n && d(t).Some? ==> t in o
  {
    if i == 0 {
      o := [];
    } else {
      var prev := TriplesBeforeOrigins(d, n, i - 1);
      var plane := TriplePlaneOrigins(d, n, i - 1, n);
      o := prev + plane;
      OriginsConcat(d, prev, TriplesBefore(d, n, i - 1), plane, TriplePlane(d, n, i - 1, n));
      TriplesSortedConcatPlane(prev, plane, i - 1);
      forall x | 0 <= x < |o| ensures o[x].i < i && o[x].i < o[x].j < o[x].k < n {
        if x >= |prev| {
          assert o[x] == plane[x - |prev|];
        }
      }
      forall t: Triple | t.i < i && t.i < t.j < t.k < n && d(t).Some? ensures t in o {
        if t.i == i - 1 {
          InRight(prev, plane, t);
        } else {
          InLeft(prev, plane, t);
        }
      }
    }
  }

  /** Every triple with first position below `i` that `d` accepts contributes its value. */
  lemma {:induction false} TriplesBeforeComplete<T>(d: Triple -> Option<T>, n: nat, i: nat, t: Triple)
    requires t.i < i && t.i < t.j < t.k < n && d(t).Some?
    ensures d(t).value in TriplesBefore(d, n, i)
  {
    var prev, plane := TriplesBefore(d, n, i - 1), TriplePlane(d, n, i - 1, n);
    assert TriplesBefore(d, n, i) == prev + plane;
    if t.i == i - 1 {
      TriplePlaneComplete(d, n, t.i, n, t);
      InRight(prev, plane, d(t).value);
    } else {
      TriplesBeforeComplete(d, n, i - 1, t);
      InLeft(prev, plane, d(t).value);
    }
  }

  /** The first `i` planes keep at most C(n, 3) - C(n - i, 3) values. */
  lemma {:induction false} TriplesBeforeCount<T>(d: Triple -> Option<T>, n: nat, i: nat)
    requires i <= n
    ensures 6 * |TriplesBefore(d, n, i)| <= n * (n - 1) * (n - 2) - (n - i) * (n - i - 1) * (n - i - 2)
  {
    if i > 0 {
      TriplesBeforeCount(d, n, i - 1);
      TriplePlaneCount(d, n, i - 1, n);
      CubeStep(n - i);
    }
  }

  /** (u+1)u(u-1) - u(u-1)(u-2) == 3u(u-1). */
  lemma CubeStep(u: int)
    ensures (u + 1) * u * (u - 1) - u * (u - 1) * (u - 2) == 3 * (u * (u - 1))
  {
    assert (u + 1) * u * (u - 1) == (u + 1) * (u * (u - 1));
    assert u * (u - 1) * (u - 2) == (u - 2) * (u * (u - 1));
  }

  /** A value is kept exactly when some triple i < j < k < n is accepted with it. */
  lemma TriplesExactly<T>(d: Triple -> Option<T>, n: nat, v: T)
    ensures v in TriplesBefore(d, n, n) <==> exists t: Triple :: t.i < t.j < t.k < n && d(t) == Some(v)
  {
    if v in TriplesBefore(d, n, n) {
      var o := TriplesBeforeOrigins(d, n, n);
      var x :| 0 <= x < |o| && TriplesBefore(d, n, n)[x] == v;
      assert o[x].i < o[x].j < o[x].k < n && d(o[x]) == Some(v);
    }
    if t: Triple :| t.i < t.j < t.k < n && d(t) == Some(v) {
      TriplesBeforeComplete(d, n, n, t);
    }
  }

  /** All triples below `n` keep at most n(n-1)(n-2)/6 values. */
  lemma TriplesCount<T>(d: Triple -> Option<T>, n: nat)
    ensures 6 * |TriplesBefore(d, n, n)| <= n * (n - 1) * (n - 2)
  {
    TriplesBeforeCount(d, n, n);
  }
}
