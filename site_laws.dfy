/**
 * What the generated sites are: the law each kept site obeys, which
 * candidates appear, in which order and how many.
 */
module SiteLaws {
  import opened Common
  import opened Geometry
  import opened Combinations
  import opened SiteGenerator

  // ------------------------------------------------ one decision per kind

  /** A Top site is kept exactly when the adsorption distance exceeds the margin; it sits `adsDist` straight above its atom. */
  lemma TopDecision(g: SiteInputs, k: nat)
    requires Fits(g) && k < |g.surface|
    ensures TopAt(g, k).Some? <==> g.adsDist > g.margin
    ensures TopAt(g, k).Some? ==> TopAt(g, k).value == Site(Top, [g.surface[k]], Lift(g.pos[g.surface[k]], g.adsDist))
  {
  }

  /**
   * A kept Bridge site: its atoms are within the distance threshold in the
   * minimum-image sense, it sits `adsDist` above the midpoint along the
   * minimum-image displacement, and above the higher atom by more than the margin.
   */
  lemma BridgeKept(g: SiteInputs, p: Pair, s: Site)
    requires Fits(g) && p.i < |g.surface| && p.j < |g.surface| && BridgeAt(g, p) == Some(s)
    ensures var a, b := g.surface[p.i], g.surface[p.j];
            s.kind == Bridge && s.atoms == [a, b] &&
            MicOf(g, a, b).dist <= g.distThr &&
            s.position.x == g.pos[a].x + MicOf(g, a, b).vec.x / 2.0 &&
            s.position.y == g.pos[a].y + MicOf(g, a, b).vec.y / 2.0 &&
            s.position.z == g.pos[a].z + MicOf(g, a, b).vec.z / 2.0 + g.adsDist &&
            s.position.z > g.pos[a].z + g.margin && s.position.z > g.pos[b].z + g.margin
  {
  }

  /** A rejected Bridge candidate failed the distance gate or the margin. */
  lemma BridgeRejected(g: SiteInputs, p: Pair)
    requires Fits(g) && p.i < |g.surface| && p.j < |g.surface| && BridgeAt(g, p).None?
    ensures var a, b := g.surface[p.i], g.surface[p.j];
            var z := g.pos[a].z + MicOf(g, a, b).vec.z / 2.0 + g.adsDist;
            MicOf(g, a, b).dist > g.distThr || z <= g.pos[a].z + g.margin || z <= g.pos[b].z + g.margin
  {
  }

  /**
   * A kept Hollow site: all three sides are within the distance threshold,
   * it sits `adsDist` above the centroid built from the two minimum-image
   * displacements out of the first atom, and above the highest atom by more
   * than the margin.
   */
  lemma HollowKept(g: SiteInputs, t: Triple, s: Site)
    requires Fits(g) && t.i < |g.surface| && t.j < |g.surface| && t.k < |g.surface| && HollowAt(g, t) == Some(s)
    ensures var a, b, c := g.surface[t.i], g.surface[t.j], g.surface[t.k];
            var u, v := MicOf(g, a, b).vec, MicOf(g, a, c).vec;
            s.kind == Hollow && s.atoms == [a, b, c] &&
            MicOf(g, a, b).dist <= g.distThr && MicOf(g, a, c).dist <= g.distThr && MicOf(g, b, c).dist <= g.distThr &&
            s.position.x == g.pos[a].x + (u.x + v.x) / 3.0 &&
            s.position.y == g.pos[a].y + (u.y + v.y) / 3.0 &&
            s.position.z == g.pos[a].z + (u.z + v.z) / 3.0 + g.adsDist &&
            s.position.z > g.pos[a].z + g.margin && s.position.z > g.pos[b].z + g.margin &&
            s.position.z > g.pos[c].z + g.margin
  {
  }

  /** A rejected Hollow candidate failed one of the three distance gates or the margin. */
  lemma HollowRejected(g: SiteInputs, t: Triple)
    requires Fits(g) && t.i < |g.surface| && t.j < |g.surface| && t.k < |g.surface| && HollowAt(g, t).None?
    ensures var a, b, c := g.surface[t.i], g.surface[t.j], g.surface[t.k];
            var u, v := MicOf(g, a, b).vec, MicOf(g, a, c).vec;
            var z := g.pos[a].z + (u.z + v.z) / 3.0 + g.adsDist;
            MicOf(g, a, b).dist > g.distThr || MicOf(g, a, c).dist > g.distThr || MicOf(g, b, c).dist > g.distThr ||
            z <= g.pos[a].z + g.margin || z <= g.pos[b].z + g.margin || z <= g.pos[c].z + g.margin
  {
  }

  // ------------------------------------------------ the Top pass

  /** The Top pass keeps every surface atom or none, in surface-list order. */
  lemma {:induction false} TopsLaw(g: SiteInputs, m: nat)
    requires Fits(g) && m <= |g.surface|
    ensures |TopsUpTo(g, m)| == (if g.adsDist > g.margin then m else 0)
    ensures forall k :: 0 <= k < |TopsUpTo(g, m)| ==>
              TopsUpTo(g, m)[k] == Site(Top, [g.surface[k]], Lift(g.pos[g.surface[k]], g.adsDist))
  {
    if m > 0 {
      var prev := TopsUpTo(g, m - 1);
      TopsLaw(g, m - 1);
      TopDecision(g, m - 1);
      if g.adsDist > g.margin {
        var a := g.surface[m - 1];
        assert TopsUpTo(g, m) == prev + [Site(Top, [a], Lift(g.pos[a], g.adsDist))];
      } else {
        assert TopsUpTo(g, m) == prev;
      }
    }
  }

  /** All Top sites: one per surface atom, in surface-list order, when `adsDist > margin`; none otherwise. */
  lemma TopSitesInOrder(g: SiteInputs)
    requires Fits(g)
    ensures |TopSites(g)| == (if g.adsDist > g.margin then |g.surface| else 0)
    ensures forall k :: 0 <= k < |TopSites(g)| ==>
              TopSites(g)[k] == Site(Top, [g.surface[k]], Lift(g.pos[g.surface[k]], g.adsDist))
  {
    TopsLaw(g, |g.surface|);
  }

  // ------------------------------------------------ the Bridge pass

  /** The Bridge sites come from accepted pairs i < j, in lexicographic order, and every accepted pair gives one. */
  lemma BridgeSitesInOrder(g: SiteInputs) returns (o: seq<Pair>)
    requires Fits(g)
    ensures |o| == |BridgeSites(g)|
    ensures forall x :: 0 <= x < |o| ==> o[x].i < o[x].j < |g.surface| && BridgeAt(g, o[x]) == Some(BridgeSites(g)[x])
    ensures PairsSorted(o)
    ensures forall p: Pair :: p.i < p.j < |g.surface| && BridgeAt(g, p).Some? ==> p in o
  {
    o := PairsBeforeOrigins(BridgeChoice(g), |g.surface|, |g.surface|);
    forall x | 0 <= x < |o|
      ensures BridgeAt(g, o[x]) == Some(BridgeSites(g)[x])
    {
      assert BridgeChoice(g)(o[x]) == BridgeAt(g, o[x]);
    }
    forall p: Pair | p.i < p.j < |g.surface| && BridgeAt(g, p).Some? ensures p in o {
      assert BridgeChoice(g)(p) == BridgeAt(g, p);
    }
  }

  /** A site is a Bridge site exactly when some pair i < j of surface-list positions is accepted with it. */
  lemma BridgeSitesExactly(g: SiteInputs, s: Site)
    requires Fits(g)
    ensures s in BridgeSites(g) <==> exists p: Pair :: p.i < p.j < |g.surface| && BridgeAt(g, p) == Some(s)
  {
    var d := BridgeChoice(g);
    PairsExactly(d, |g.surface|, s);
    if s in BridgeSites(g) {
      var p: Pair :| p.i < p.j < |g.surface| && d(p) == Some(s);
      assert BridgeAt(g, p) == Some(s);
    }
    if p: Pair :| p.i < p.j < |g.surface| && BridgeAt(g, p) == Some(s) {
      assert d(p) == Some(s);
    }
  }

  /** At most n(n-1)/2 Bridge sites over n surface atoms. */
  lemma BridgeSitesCount(g: SiteInputs)
    requires Fits(g)
    ensures 2 * |BridgeSites(g)| <= |g.surface| * (|g.surface| - 1)
  {
    PairsCount(BridgeChoice(g), |g.surface|);
  }

  // ------------------------------------------------ the Hollow pass

  /** The Hollow sites come from accepted triples i < j < k, in lexicographic order, and every accepted triple gives one. */
  lemma HollowSitesInOrder(g: SiteInputs) returns (o: seq<Triple>)
    requires Fits(g)
    ensures |o| == |HollowSites(g)|
    ensures forall x :: 0 <= x < |o| ==> o[x].i < o[x].j < o[x].k < |g.surface| && HollowAt(g, o[x]) == Some(HollowSites(g)[x])
    ensures TriplesSorted(o)
    ensures forall t: Triple :: t.i < t.j < t.k < |g.surface| && HollowAt(g, t).Some? ==> t in o
  {
    o := TriplesBeforeOrigins(HollowChoice(g), |g.surface|, |g.surface|);
    forall x | 0 <= x < |o|
      ensures HollowAt(g, o[x]) == Some(HollowSites(g)[x])
    {
      assert HollowChoice(g)(o[x]) == HollowAt(g, o[x]);
    }
    forall t: Triple | t.i < t.j < t.k < |g.surface| && HollowAt(g, t).Some? ensures t in o {
      assert HollowChoice(g)(t) == HollowAt(g, t);
    }
  }

  /** A site is a Hollow site exactly when some triple i < j < k of surface-list positions is accepted with it. */
  lemma HollowSitesExactly(g: SiteInputs, s: Site)
    requires Fits(g)
    ensures s in HollowSites(g) <==> exists t: Triple :: t.i < t.j < t.k < |g.surface| && HollowAt(g, t) == Some(s)
  {
    var d := HollowChoice(g);
    TriplesExactly(d, |g.surface|, s);
    if s in HollowSites(g) {
      var t: Triple :| t.i < t.j < t.k < |g.surface| && d(t) == Some(s);
      assert HollowAt(g, t) == Some(s);
    }
    if t: Triple :| t.i < t.j < t.k < |g.surface| && HollowAt(g, t) == Some(s) {
      assert d(t) == Some(s);
    }
  }

  /** At most n(n-1)(n-2)/6 Hollow sites over n surface atoms. */
  lemma HollowSitesCount(g: SiteInputs)
    requires Fits(g)
    ensures 6 * |HollowSites(g)| <= |g.surface| * (|g.surface| - 1) * (|g.surface| - 2)
  {
    TriplesCount(HollowChoice(g), |g.surface|);
  }

  // ------------------------------------------------ all sites

  /** Position of a kind in the output: the Top pass runs first, then Bridge, then Hollow. */
  function Rank(k: Kind): nat
  {
    match k
    case Top => 0
    case Bridge => 1
    case Hollow => 2
  }

  /** The highest z among the given atoms. */
  function HighestZ(pos: seq<Vec3>, atoms: seq<nat>): (r: real)
    requires |atoms| >= 1 && forall q :: 0 <= q < |atoms| ==> atoms[q] < |pos|
    ensures forall q :: 0 <= q < |atoms| ==> pos[atoms[q]].z <= r
    ensures exists q :: 0 <= q < |atoms| && pos[atoms[q]].z == r
  {
    if |atoms| == 1 then pos[atoms[0]].z
    else
      var rest := HighestZ(pos, atoms[1..]);
      assert forall q :: 1 <= q < |atoms| ==> pos[atoms[q]].z <= rest by {
        forall q | 1 <= q < |atoms| ensures pos[atoms[q]].z <= rest {
          assert atoms[q] == atoms[1..][q - 1];
        }
      }
      var q :| 0 <= q < |atoms[1..]| && pos[atoms[1..][q]].z == rest;
      assert atoms[1..][q] == atoms[q + 1];
      Max(pos[atoms[0]].z, rest)
  }

  /** A site's shape: one, two or three surface atoms according to its kind, and clear of them by more than the margin. */
  ghost predicate WellPlaced(g: SiteInputs, s: Site)
    requires Fits(g)
  {
    |s.atoms| == Rank(s.kind) + 1 &&
    (forall q :: 0 <= q < |s.atoms| ==> s.atoms[q] in g.surface && s.atoms[q] < |g.pos|) &&
    s.position.z > HighestZ(g.pos, s.atoms) + g.margin
  }

  lemma TopWellPlaced(g: SiteInputs, s: Site)
    requires Fits(g) && s in TopSites(g)
    ensures WellPlaced(g, s)
  {
    TopSitesInOrder(g);
    var k :| 0 <= k < |TopSites(g)| && TopSites(g)[k] == s;
    TopDecision(g, k);
  }

  lemma BridgeWellPlaced(g: SiteInputs, s: Site)
    requires Fits(g) && s in BridgeSites(g)
    ensures WellPlaced(g, s)
  {
    BridgeSitesExactly(g, s);
    var p: Pair :| p.i < p.j < |g.surface| && BridgeAt(g, p) == Some(s);
    BridgeKept(g, p, s);
    var h := HighestZ(g.pos, s.atoms);
    var q :| 0 <= q < 2 && g.pos[s.atoms[q]].z == h;
  }

  lemma HollowWellPlaced(g: SiteInputs, s: Site)
    requires Fits(g) && s in HollowSites(g)
    ensures WellPlaced(g, s)
  {
    HollowSitesExactly(g, s);
    var t: Triple :| t.i < t.j < t.k < |g.surface| && HollowAt(g, t) == Some(s);
    HollowKept(g, t, s);
    var h := HighestZ(g.pos, s.atoms);
    var q :| 0 <= q < 3 && g.pos[s.atoms[q]].z == h;
  }

  /** Every generated site sits on surface atoms of its kind's number and clears the highest of them by more than the margin. */
  lemma AllSitesWellPlaced(g: SiteInputs, s: Site)
    requires Fits(g) && s in AllSites(g)
    ensures WellPlaced(g, s)
  {
    if s in TopSites(g) {
      TopWellPlaced(g, s);
    } else if s in BridgeSites(g) {
      BridgeWellPlaced(g, s);
    } else {
      assert s in HollowSites(g);
      HollowWellPlaced(g, s);
    }
  }

  /** All Top sites come first, then all Bridge sites, then all Hollow sites. */
  lemma KindsInOrder(g: SiteInputs)
    requires Fits(g)
    ensures forall x, y :: 0 <= x < y < |AllSites(g)| ==> Rank(AllSites(g)[x].kind) <= Rank(AllSites(g)[y].kind)
  {
    forall x, y | 0 <= x < y < |AllSites(g)| ensures Rank(AllSites(g)[x].kind) <= Rank(AllSites(g)[y].kind) {
      SegmentKinds(g, x);
      SegmentKinds(g, y);
    }
  }

  // ------------------------------------------------ no site twice

  /** Over a surface list without repeats, no two Top sites share their atom. */
  lemma TopKeysDistinct(g: SiteInputs)
    requires Fits(g) && Distinct(g.surface)
    ensures forall x, y :: 0 <= x < y < |TopSites(g)| ==> TopSites(g)[x].atoms != TopSites(g)[y].atoms
  {
    TopSitesInOrder(g);
    var t := TopSites(g);
    forall x, y | 0 <= x < y < |t| ensures t[x].atoms != t[y].atoms {
      assert t[x].atoms[0] == g.surface[x] && t[y].atoms[0] == g.surface[y];
    }
  }

  /** Over a surface list without repeats, no two Bridge sites share their atoms. */
  lemma BridgeKeysDistinct(g: SiteInputs)
    requires Fits(g) && Distinct(g.surface)
    ensures forall x, y :: 0 <= x < y < |BridgeSites(g)| ==> BridgeSites(g)[x].atoms != BridgeSites(g)[y].atoms
  {
    var b := BridgeSites(g);
    var o := BridgeSitesInOrder(g);
    forall x, y | 0 <= x < y < |b| ensures b[x].atoms != b[y].atoms {
      BridgeKept(g, o[x], b[x]);
      BridgeKept(g, o[y], b[y]);
      assert PairLess(o[x], o[y]);
      if o[x].i != o[y].i {
        assert b[x].atoms[0] != b[y].atoms[0];
      } else {
        assert b[x].atoms[1] != b[y].atoms[1];
      }
    }
  }

  /** Over a surface list without repeats, no two Hollow sites share their atoms. */
  lemma HollowKeysDistinct(g: SiteInputs)
    requires Fits(g) && Distinct(g.surface)
    ensures forall x, y :: 0 <= x < y < |HollowSites(g)| ==> HollowSites(g)[x].atoms != HollowSites(g)[y].atoms
  {
    var h := HollowSites(g);
    var o := HollowSitesInOrder(g);
    forall x, y | 0 <= x < y < |h| ensures h[x].atoms != h[y].atoms {
      HollowKept(g, o[x], h[x]);
      HollowKept(g, o[y], h[y]);
      assert TripleLess(o[x], o[y]);
      if o[x].i != o[y].i {
        assert h[x].atoms[0] != h[y].atoms[0];
      } else if o[x].j != o[y].j {
        assert h[x].atoms[1] != h[y].atoms[1];
      } else {
        assert h[x].atoms[2] != h[y].atoms[2];
      }
    }
  }

  /** Over a surface list without repeats, no two generated sites share both kind and atoms. */
  lemma SitesDistinct(g: SiteInputs)
    requires Fits(g) && Distinct(g.surface)
    ensures forall x, y :: 0 <= x < y < |AllSites(g)| ==>
              AllSites(g)[x].kind != AllSites(g)[y].kind || AllSites(g)[x].atoms != AllSites(g)[y].atoms
  {
    var t, b, h := TopSites(g), BridgeSites(g), HollowSites(g);
    var all := AllSites(g);
    assert all == t + b + h;
    KindsInOrder(g);
    TopKeysDistinct(g);
    BridgeKeysDistinct(g);
    HollowKeysDistinct(g);
    forall x, y | 0 <= x < y < |all| ensures all[x].kind != all[y].kind || all[x].atoms != all[y].atoms {
      if y < |t| {
        assert all[x] == t[x] && all[y] == t[y];
      } else if x >= |t| && y < |t| + |b| {
        assert all[x] == b[x - |t|] && all[y] == b[y - |t|];
      } else if x >= |t| + |b| {
        assert all[x] == h[x - |t| - |b|] && all[y] == h[y - |t| - |b|];
      } else {
        SegmentKinds(g, x);
        SegmentKinds(g, y);
      }
    }
  }

  /** The kind of the site at position `x` of the output, by the pass that produced it. */
  lemma SegmentKinds(g: SiteInputs, x: nat)
    requires Fits(g) && x < |AllSites(g)|
    ensures Rank(AllSites(g)[x].kind) == if x < |TopSites(g)| then 0 else if x < |TopSites(g)| + |BridgeSites(g)| then 1 else 2
  {
    var t, b, h := TopSites(g), BridgeSites(g), HollowSites(g);
    var all := AllSites(g);
    assert all == t + b + h;
    if x < |t| {
      TopSitesInOrder(g);
      assert all[x] == t[x];
    } else if x < |t| + |b| {
      var o := BridgeSitesInOrder(g);
      BridgeKept(g, o[x - |t|], b[x - |t|]);
      assert all[x] == b[x - |t|];
    } else {
      var o := HollowSitesInOrder(g);
      HollowKept(g, o[x - |t| - |b|], h[x - |t| - |b|]);
      assert all[x] == h[x - |t| - |b|];
    }
  }
}
