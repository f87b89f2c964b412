/**
 * Surface selection: a height screen over all atoms, then the vertices of the
 * two-dimensional convex hull of the screened atoms, with a fallback for
 * fewer than three candidates.
 */
module SurfaceSelector {
  import opened Common
  import opened Geometry

  /** An (x, y) projection of an atom position. */
  datatype Point2 = Point2(x: real, y: real)

  /**
   * The convex-hull routine: given planar points, either the hull's vertex
   * positions into that point list, or `None` where the routine raises
   * (a degenerate, e.g. collinear, point set).
   */
  type HullOracle = seq<Point2> -> Option<seq<nat>>

  /** What a hull routine guarantees of one answer: at least three distinct vertex positions into the input. */
  predicate HullAnswerOk(pts: seq<Point2>, answer: Option<seq<nat>>)
  {
    answer.Some? ==>
      && |answer.value| >= 3
      && Distinct(answer.value)
      && forall k :: 0 <= k < |answer.value| ==> answer.value[k] < |pts|
  }

  /** The hull routine keeps that guarantee on every input. */
  ghost predicate HullContract(hull: HullOracle)
  {
    forall pts :: HullAnswerOk(pts, hull(pts))
  }

  /** Why the surface could not be computed. */
  datatype SurfaceError = HullFailed

  /** Indices below `m` whose height is at least `zTh`, ascending. */
  function CandidatesBelow(pos: seq<Vec3>, zTh: real, m: nat): (r: seq<nat>)
    requires m <= |pos|
    ensures forall i: nat :: i in r <==> i < m && pos[i].z >= zTh
    ensures StrictlyIncreasing(r)
    ensures forall k :: 0 <= k < |r| ==> r[k] < m
    decreases m
  {
    if m == 0 then []
    else
      var r := CandidatesBelow(pos, zTh, m - 1);
      if pos[m - 1].z >= zTh then r + [m - 1] else r
  }

  /** `np.where(zs >= z_th)[0]`: every atom index whose height reaches the threshold, ascending. */
  function Candidates(pos: seq<Vec3>, zTh: real): (r: seq<nat>)
    ensures forall i: nat :: i in r <==> i < |pos| && pos[i].z >= zTh
    ensures StrictlyIncreasing(r)
  {
    CandidatesBelow(pos, zTh, |pos|)
  }

  /** `pos[cand][:, :2]`: the (x, y) projection of the listed atoms. */
  function Project(pos: seq<Vec3>, idx: seq<nat>): (r: seq<Point2>)
    requires forall k :: 0 <= k < |idx| ==> idx[k] < |pos|
    ensures |r| == |idx|
    ensures forall k :: 0 <= k < |idx| ==> r[k] == Point2(pos[idx[k]].x, pos[idx[k]].y)
  {
    seq(|idx|, k requires 0 <= k < |idx| => Point2(pos[idx[k]].x, pos[idx[k]].y))
  }

  /** `cand[vertices]`: the candidates at the given positions of the candidate list. */
  function Pick(cand: seq<nat>, vertices: seq<nat>): (r: seq<nat>)
    requires forall k :: 0 <= k < |vertices| ==> vertices[k] < |cand|
    ensures |r| == |vertices|
    ensures forall k :: 0 <= k < |r| ==> r[k] == cand[vertices[k]]
  {
    seq(|vertices|, k requires 0 <= k < |vertices| => cand[vertices[k]])
  }

  /**
   * `identify_surface_atoms_via_hull`, with the threshold `zTh` given
   * instead of computed as a percentile.
   */
  function SelectSurface(pos: seq<Vec3>, zTh: real, hull: HullOracle): (r: Result<seq<nat>, SurfaceError>)
    requires HullContract(hull)
    // fallback: fewer than three candidates are returned unchanged
    ensures |Candidates(pos, zTh)| < 3 ==> r == Success(Candidates(pos, zTh))
    // the error is exactly the hull routine's failure on three or more candidates
    ensures r.Failure? <==>
              |Candidates(pos, zTh)| >= 3 && hull(Project(pos, Candidates(pos, zTh))).None?
    // surface <= candidates <= atom indices, without repetition
    ensures r.Success? ==>
              && (forall k :: 0 <= k < |r.value| ==> r.value[k] in Candidates(pos, zTh))
              && (forall k :: 0 <= k < |r.value| ==> r.value[k] < |pos| && pos[r.value[k]].z >= zTh)
              && Distinct(r.value)
    // on the hull path there are at least three surface atoms
    ensures r.Success? && |Candidates(pos, zTh)| >= 3 ==> |r.value| >= 3
    // and they are the candidates at the hull's vertex positions, in the hull's order
    ensures r.Success? && |Candidates(pos, zTh)| >= 3 ==>
              var v := hull(Project(pos, Candidates(pos, zTh))).value;
              |r.value| == |v| && forall k :: 0 <= k < |v| ==> r.value[k] == Candidates(pos, zTh)[v[k]]
  {
    var cand := Candidates(pos, zTh);
    if |cand| < 3 then Success(cand)
    else
      var pts := Project(pos, cand);
      match hull(pts)
      case None => Failure(HullFailed)
      case Some(vertices) =>
        assert HullAnswerOk(pts, hull(pts));
        var surf := Pick(cand, vertices);
        assert forall k :: 0 <= k < |surf| ==> surf[k] in cand by {
          forall k | 0 <= k < |surf| ensures surf[k] in cand {
            assert surf[k] == cand[vertices[k]];
          }
        }
        Success(surf)
  }

  /** The highest atom. */
  function MaxZ(pos: seq<Vec3>): real
    requires |pos| > 0
  {
    if |pos| == 1 then pos[0].z else Max(MaxZ(pos[..|pos| - 1]), pos[|pos| - 1].z)
  }

  /** Some atom sits at the height `MaxZ` and none above it. */
  lemma {:induction false} MaxZAttained(pos: seq<Vec3>) returns (top: nat)
    requires |pos| > 0
    ensures top < |pos| && pos[top].z == MaxZ(pos)
    ensures forall i :: 0 <= i < |pos| ==> pos[i].z <= MaxZ(pos)
  {
    if |pos| == 1 {
      top := 0;
    } else {
      var init := pos[..|pos| - 1];
      top := MaxZAttained(init);
      assert forall i :: 0 <= i < |init| ==> pos[i] == init[i];
      if pos[|pos| - 1].z > MaxZ(init) {
        top := |pos| - 1;
      }
    }
  }

  /** A threshold no higher than the highest atom leaves at least one candidate. */
  lemma CandidatesNonEmpty(pos: seq<Vec3>, zTh: real)
    requires |pos| > 0 && zTh <= MaxZ(pos)
    ensures |Candidates(pos, zTh)| > 0
  {
    var top := MaxZAttained(pos);
    assert top in Candidates(pos, zTh);
  }
}
