/**
 * The stages put together: the surface selection feeds the site generator,
 * and each site's label names its output file.
 */
module Pipeline {
  import opened Common
  import opened Geometry
  import opened SurfaceSelector
  import opened SiteGenerator
  import opened SiteLabels

  /** The output file name for one site, `{base}_{label}.vasp`. */
  function FileName(base: string, siteLabel: string): (r: string)
    ensures |r| == |base| + |siteLabel| + 6
    ensures r[..|base|] == base && r[|base|] == '_' && r[|base| + 1..|r| - 5] == siteLabel && r[|r| - 5..] == ".vasp"
  {
    base + "_" + siteLabel + ".vasp"
  }

  /** Different labels give different file names. */
  lemma FileNameInjective(base: string, l1: string, l2: string)
    ensures FileName(base, l1) == FileName(base, l2) ==> l1 == l2
  {
    var f1, f2 := FileName(base, l1), FileName(base, l2);
    var prefix := |base| + 1;
    if f1 == f2 {
      assert |l1| == |l2|;
      assert f1[prefix..prefix + |l1|] == l1;
      assert f2[prefix..prefix + |l2|] == l2;
    }
  }

  /**
   * A surface list chosen by the selection names atoms of the slab and holds
   * no atom twice, so the generator can run on it and gives every site its
   * own label and its own output file.
   */
  lemma SelectedSurfaceGivesDistinctFiles(pos: seq<Vec3>, zTh: real, hull: HullOracle,
                                        cell: Cell, pbc: Pbc, adsDist: real, distThr: real, margin: real,
                                        mic: MicOracle, base: string)
    requires HullContract(hull) && SelectSurface(pos, zTh, hull).Success?
    ensures var g := SiteInputs(pos, cell, pbc, SelectSurface(pos, zTh, hull).value, adsDist, distThr, margin, mic);
            Fits(g) &&
            forall x, y :: 0 <= x < y < |AllSites(g)| ==>
              FileName(base, Label(AllSites(g)[x])) != FileName(base, Label(AllSites(g)[y]))
  {
    var surface := SelectSurface(pos, zTh, hull).value;
    var g := SiteInputs(pos, cell, pbc, surface, adsDist, distThr, margin, mic);
    LabelsUnique(g);
    forall x, y | 0 <= x < y < |AllSites(g)|
      ensures FileName(base, Label(AllSites(g)[x])) != FileName(base, Label(AllSites(g)[y]))
    {
      FileNameInjective(base, Label(AllSites(g)[x]), Label(AllSites(g)[y]));
    }
  }
}
