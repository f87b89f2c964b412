/**
 * Site generation: Top sites above each surface atom, Bridge sites over close
 * pairs and Hollow sites over close triples, each kept only when it clears a
 * height margin over the atoms it sits on.
 *
 * The reference definition enumerates the pairs and triples of surface-list
 * positions (module Combinations) and filters them with one decision function
 * per kind; `GenerateSites` is the nested-loop procedure, proved equal to it.
 */
module SiteGenerator {
  import opened Common
  import opened Geometry
  import opened Combinations

  datatype Kind = Top | Bridge | Hollow

  /** A proposed site: its kind, the atom indices it sits on, and its position. */
  datatype Site = Site(kind: Kind, atoms: seq<nat>, position: Vec3)

  /** Everything one call of the generator reads. */
  datatype SiteInputs = SiteInputs(
    pos: seq<Vec3>,
    cell: Cell,
    pbc: Pbc,
    surface: seq<nat>,
    adsDist: real,
    distThr: real,
    margin: real,
    mic: MicOracle)

  /** The surface list names atoms of the slab. */
  predicate Fits(g: SiteInputs)
  {
    forall k :: 0 <= k < |g.surface| ==> g.surface[k] < |g.pos|
  }

  /** `find_mic(pos[b] - pos[a], cell, pbc)`. */
  function MicOf(g: SiteInputs, a: nat, b: nat): Mic
    requires a < |g.pos| && b < |g.pos|
  {
    g.mic(Sub(g.pos[b], g.pos[a]), g.cell, g.pbc)
  }

  // ------------------------------------------------ one decision per kind

  /** The Top decision for surface-list position `k`. */
  function TopAt(g: SiteInputs, k: nat): Option<Site>
    requires Fits(g) && k < |g.surface|
  {
    var a := g.surface[k];
    var site := Lift(g.pos[a], g.adsDist);
    if site.z > g.pos[a].z + g.margin then Some(Site(Top, [a], site)) else None
  }

  /** The Bridge decision for the surface-list positions `p.i`, `p.j`. */
  function BridgeAt(g: SiteInputs, p: Pair): Option<Site>
    requires Fits(g) && p.i < |g.surface| && p.j < |g.surface|
  {
    var a, b := g.surface[p.i], g.surface[p.j];
    var m := MicOf(g, a, b);
    if m.dist <= g.distThr then
      var site := Lift(Add(g.pos[a], Div(m.vec, 2.0)), g.adsDist);
      if site.z > Max(g.pos[a].z, g.pos[b].z) + g.margin then Some(Site(Bridge, [a, b], site)) else None
    else None
  }

  /** The Hollow decision for the surface-list positions `t.i`, `t.j`, `t.k`. */
  function HollowAt(g: SiteInputs, t: Triple): Option<Site>
    requires Fits(g) && t.i < |g.surface| && t.j < |g.surface| && t.k < |g.surface|
  {
    var a, b, c := g.surface[t.i], g.surface[t.j], g.surface[t.k];
    var m12, m13, m23 := MicOf(g, a, b), MicOf(g, a, c), MicOf(g, b, c);
    if m12.dist <= g.distThr && m13.dist <= g.distThr && m23.dist <= g.distThr then
      var site := Lift(Add(g.pos[a], Div(Add(m12.vec, m13.vec), 3.0)), g.adsDist);
      if site.z > Max(Max(g.pos[a].z, g.pos[b].z), g.pos[c].z) + g.margin
      then Some(Site(Hollow, [a, b, c], site))
      else None
    else None
  }

  // ------------------------------------------------ reference definition

  /** The Top sites of the first `m` surface atoms. */
  function TopsUpTo(g: SiteInputs, m: nat): seq<Site>
    requires Fits(g) && m <= |g.surface|
  {
    if m == 0 then [] else TopsUpTo(g, m - 1) + OptionToSeq(TopAt(g, m - 1))
  }

  /** The Bridge decision as a total function of the pair: positions off the surface list propose nothing. */
  function BridgeChoice(g: SiteInputs): Pair -> Option<Site>
    requires Fits(g)
  {
    (p: Pair) => if p.i < |g.surface| && p.j < |g.surface| then BridgeAt(g, p) else None
  }

  /** The Hollow decision as a total function of the triple: positions off the surface list propose nothing. */
  function HollowChoice(g: SiteInputs): Triple -> Option<Site>
    requires Fits(g)
  {
    (t: Triple) => if t.i < |g.surface| && t.j < |g.surface| && t.k < |g.surface| then HollowAt(g, t) else None
  }

  function TopSites(g: SiteInputs): seq<Site>
    requires Fits(g)
  {
    TopsUpTo(g, |g.surface|)
  }

  function BridgeSites(g: SiteInputs): seq<Site>
    requires Fits(g)
  {
    PairsBefore(BridgeChoice(g), |g.surface|, |g.surface|)
  }

  function HollowSites(g: SiteInputs): seq<Site>
    requires Fits(g)
  {
    TriplesBefore(HollowChoice(g), |g.surface|, |g.surface|)
  }

  /** The three passes, concatenated. */
  function AllSites(g: SiteInputs): seq<Site>
    requires Fits(g)
  {
    TopSites(g) + BridgeSites(g) + HollowSites(g)
  }

  // ------------------------------------------------ the procedure

  /** `generate_adsorption_sites`: three passes appending to one list. */
  method GenerateSites(pos: seq<Vec3>, cell: Cell, pbc: Pbc, surface: seq<nat>,
                       adsDist: real, distThr: real, margin: real, mic: MicOracle)
    returns (sites: seq<Site>)
    requires forall k :: 0 <= k < |surface| ==> surface[k] < |pos|
    ensures sites == AllSites(SiteInputs(pos, cell, pbc, surface, adsDist, distThr, margin, mic))
  {
    var g := SiteInputs(pos, cell, pbc, surface, adsDist, distThr, margin, mic);
    sites := [];
    sites := AppendTopSites(g, sites);
    assert sites == TopSites(g);
    sites := AppendBridgeSites(g, sites);
    assert sites == TopSites(g) + BridgeSites(g);
    sites := AppendHollowSites(g, sites);
  }

  /** The Top pass: one loop over the surface list. */
  method AppendTopSites(g: SiteInputs, sites0: seq<Site>) returns (sites: seq<Site>)
    requires Fits(g)
    ensures sites == sites0 + TopSites(g)
  {
    sites := sites0;
    for t := 0 to |g.surface|
      invariant sites == sites0 + TopsUpTo(g, t)
    {
      var kept := TopStep(g, t);
      sites := sites + OptionToSeq(kept);
    }
  }

  /** One Top candidate: lift the atom and test the margin. */
  method TopStep(g: SiteInputs, t: nat) returns (kept: Option<Site>)
    requires Fits(g) && t < |g.surface|
    ensures kept == TopAt(g, t)
  {
    var idx := g.surface[t];
    var bz := g.pos[idx].z;
    var site := Lift(g.pos[idx], g.adsDist);
    if site.z > bz + g.margin {
      kept := Some(Site(Top, [idx], site));
    } else {
      kept := None;
    }
  }

  /** The Bridge pass: a loop over positions i and, inside it, over positions j > i. */
  method AppendBridgeSites(g: SiteInputs, sites0: seq<Site>) returns (sites: seq<Site>)
    requires Fits(g)
    ensures sites == sites0 + BridgeSites(g)
  {
    sites := sites0;
    for i := 0 to |g.surface|
      invariant sites == sites0 + PairsBefore(BridgeChoice(g), |g.surface|, i)
    {
      PairsBeforeSnoc(BridgeChoice(g), |g.surface|, i, sites0);
      sites := AppendBridgeRow(g, i, sites);
    }
  }

  /** The inner Bridge loop: positions j > i for a fixed i. */
  method AppendBridgeRow(g: SiteInputs, i: nat, sites0: seq<Site>) returns (sites: seq<Site>)
    requires Fits(g) && i < |g.surface|
    ensures sites == sites0 + PairRow(BridgeChoice(g), i, |g.surface|)
  {
    sites := sites0;
    for j := i + 1 to |g.surface|
      invariant sites == sites0 + PairRow(BridgeChoice(g), i, j)
    {
      var kept := BridgeStep(g, i, j);
      PairRowSnoc(BridgeChoice(g), i, j, sites0);
      sites := sites + OptionToSeq(kept);
    }
  }

  /** One Bridge candidate: the minimum-image displacement, the distance gate, the midpoint and the margin. */
  method BridgeStep(g: SiteInputs, i: nat, j: nat) returns (kept: Option<Site>)
    requires Fits(g) && i < |g.surface| && j < |g.surface|
    ensures kept == BridgeChoice(g)(Pair(i, j))
  {
    var pos := g.pos;
    var idx1, idx2 := g.surface[i], g.surface[j];
    var m := g.mic(Sub(pos[idx2], pos[idx1]), g.cell, g.pbc);
    kept := None;
    if m.dist <= g.distThr {
      var midpoint := Add(pos[idx1], Div(m.vec, 2.0));
      var site := Lift(midpoint, g.adsDist);
      if site.z > Max(pos[idx1].z, pos[idx2].z) + g.margin {
        kept := Some(Site(Bridge, [idx1, idx2], site));
      }
    }
  }

  /** The Hollow pass: loops over positions i < j < k. */
  method AppendHollowSites(g: SiteInputs, sites0: seq<Site>) returns (sites: seq<Site>)
    requires Fits(g)
    ensures sites == sites0 + HollowSites(g)
  {
    sites := sites0;
    for i := 0 to |g.surface|
      invariant sites == sites0 + TriplesBefore(HollowChoice(g), |g.surface|, i)
    {
      TriplesBeforeSnoc(HollowChoice(g), |g.surface|, i, sites0);
      sites := AppendHollowPlane(g, i, sites);
    }
  }

  /** The middle Hollow loop: positions j > i for a fixed i. */
  method AppendHollowPlane(g: SiteInputs, i: nat, sites0: seq<Site>) returns (sites: seq<Site>)
    requires Fits(g) && i < |g.surface|
    ensures sites == sites0 + TriplePlane(HollowChoice(g), |g.surface|, i, |g.surface|)
  {
    sites := sites0;
    for j := i + 1 to |g.surface|
      invariant sites == sites0 + TriplePlane(HollowChoice(g), |g.surface|, i, j)
    {
      TriplePlaneSnoc(HollowChoice(g), |g.surface|, i, j, sites0);
      sites := AppendHollowRow(g, i, j, sites);
    }
  }

  /** The innermost Hollow loop: positions k > j for fixed i < j. */
  method AppendHollowRow(g: SiteInputs, i: nat, j: nat, sites0: seq<Site>) returns (sites: seq<Site>)
    requires Fits(g) && i < j < |g.surface|
    ensures sites == sites0 + TripleRow(HollowChoice(g), i, j, |g.surface|)
  {
    sites := sites0;
    for k := j + 1 to |g.surface|
      invariant sites == sites0 + TripleRow(HollowChoice(g), i, j, k)
    {
      var kept := HollowStep(g, i, j, k);
      TripleRowSnoc(HollowChoice(g), i, j, k, sites0);
      sites := sites + OptionToSeq(kept);
    }
  }

  /** One Hollow candidate: three minimum-image displacements, the distance gate, the centroid and the margin. */
  method HollowStep(g: SiteInputs, i: nat, j: nat, k: nat) returns (kept: Option<Site>)
    requires Fits(g) && i < |g.surface| && j < |g.surface| && k < |g.surface|
    ensures kept == HollowChoice(g)(Triple(i, j, k))
  {
    var pos := g.pos;
    var idx1, idx2, idx3 := g.surface[i], g.surface[j], g.surface[k];
    var m12 := g.mic(Sub(pos[idx2], pos[idx1]), g.cell, g.pbc);
    var m13 := g.mic(Sub(pos[idx3], pos[idx1]), g.cell, g.pbc);
    var m23 := g.mic(Sub(pos[idx3], pos[idx2]), g.cell, g.pbc);
    kept := None;
    if m12.dist <= g.distThr && m13.dist <= g.distThr && m23.dist <= g.distThr {
      var centroid := Add(pos[idx1], Div(Add(m12.vec, m13.vec), 3.0));
      var site := Lift(centroid, g.adsDist);
      if site.z > Max(Max(pos[idx1].z, pos[idx2].z), pos[idx3].z) + g.margin {
        kept := Some(Site(Hollow, [idx1, idx2, idx3], site));
      }
    }
  }
}
