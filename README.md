# Adsorption-site generator, modelled in Dafny

This project models the discrete core of `add_adsorbate.py`. That script takes a
crystalline slab and does three things:

- it picks the exposed surface atoms;
- it proposes adsorption sites above them: Top over one atom, Bridge over two
  close atoms, Hollow over three mutually close atoms;
- for each site, it copies the slab with one adsorbate atom appended at the
  site position before the copy is written.

The model has these modules:

- `SurfaceSelector` (`surface.dfy`) is `identify_surface_atoms_via_hull`. It
  has a height screen, the fallback for fewer than three candidates, and the
  convex-hull vertex pick. The hull routine is a function parameter.
- `SiteGenerator` (`sites.dfy`) is `generate_adsorption_sites`:
  - one decision function per kind. `TopAt`, `BridgeAt` and `HollowAt` hold
    the distance gate, the position formula and the margin test.
  - a reference definition of the output list. `AllSites` is the Top, Bridge
    and Hollow passes concatenated.
  - the imperative procedure `GenerateSites`. Its loops append to a `seq`
    exactly as the source appends to `sites`, and it is proved equal to
    `AllSites`. Each loop level is its own method with the same order:
    - the single Top loop;
    - the Bridge loops over i and j > i;
    - the Hollow loops over i, j > i and k > j.
- `Combinations` (`combinations.dfy`) defines what nested loops over pairs
  i < j and triples i < j < k keep for any decision function. It proves,
  once and for all:
  - where each kept value came from;
  - that the origins are in lexicographic order;
  - that every accepted candidate appears;
  - the count bounds.
- `SiteLaws` (`site_laws.dfy`) applies those to the three site kinds:
  - the law every kept site obeys;
  - Top before Bridge before Hollow;
  - no site twice over a surface list without repeats.
- `SiteLabels` (`labels.dfy`) and `Text` (`text.dfy`) render labels such as
  `Bridge_3_7`, and prove that a label determines its site's kind and atoms.
- `Assembler` (`assembler.dfy`) is the copy-then-append step of
  `add_adsorbate_and_write`, on a `Slab` class whose fields are updated in
  place.
- `Pipeline` (`pipeline.dfy`) connects the stages. A surface list chosen by
  the selection gives every generated site its own output file name.

Two routines are external and become function parameters:

- `find_mic`, the minimum-image displacement and its length (`MicOracle`);
- `scipy.spatial.ConvexHull` (`HullOracle`). `None` stands for the routine
  raising.

Every property holds whatever the minimum-image parameter returns. The hull
parameter is assumed to answer with at least three distinct vertex positions
into its input (`HullContract`). Coordinates are exact reals.

In these places the script's behaviour differs from what one might expect of
it, and the model follows the code:

- A collinear or otherwise degenerate candidate set does not fall back to
  returning all candidates. `ConvexHull` raises on such input and nothing
  catches the error (add_adsorbate.py:62). The model therefore returns
  `Failure(HullFailed)` there.
- The fallback's warning message says all atoms are used. The code returns
  the candidates (add_adsorbate.py:58-60), and so does the model.
- The distance threshold does not remove near-duplicate sites. The code only
  uses it to gate pairs and triples (add_adsorbate.py:92, 107), and so does
  the model.
- Nothing rejects a non-positive adsorption distance, a negative margin or a
  negative distance threshold (add_adsorbate.py:67-68). The model takes any
  real for each. With an adsorption distance no larger than the margin there
  are no Top sites (`SiteLaws.TopSitesInOrder`).

## Model

| member | source | states |
|---|---|---|
| Geometry.Lift | add_adsorbate.py:84 | `p + normal*h` keeps x and y and raises z by exactly h |
| Geometry.Max | add_adsorbate.py:95 | Python's two-argument `max`: an upper bound of both arguments, equal to one of them |
| SurfaceSelector.Candidates | add_adsorbate.py:56 | every atom index whose z is at least the threshold is a candidate, and no other; the list is strictly ascending |
| SurfaceSelector.Project | add_adsorbate.py:61 | one planar point per listed atom: the k-th is the (x, y) of the k-th listed atom |
| SurfaceSelector.Pick | add_adsorbate.py:63 | one index per vertex position: the k-th is the candidate at the k-th vertex position |
| SurfaceSelector.CandidatesBelow | add_adsorbate.py:54-56 | an index is a candidate iff it is an atom index whose z is at least the threshold; the list is strictly ascending, so it has no repeats |
| SurfaceSelector.SelectSurface | add_adsorbate.py:53-65 | fewer than 3 candidates: the candidates unchanged; otherwise the result is an error exactly when the hull routine fails, and a success is exactly the candidates at the hull's vertex positions, in the hull's order; every success is a subset of the candidates, without repeats, of atoms at or above the threshold, with at least 3 atoms on the hull path |
| SurfaceSelector.MaxZAttained | add_adsorbate.py:54 | some atom sits at the maximum height and none above it |
| SurfaceSelector.CandidatesNonEmpty | add_adsorbate.py:55-56 | a threshold no higher than the highest atom leaves at least one candidate |
| SiteGenerator.MicOf | add_adsorbate.py:104-106 | the minimum-image routine applied to `pos[b] - pos[a]` with the slab's cell and periodicity, as on line 91 and lines 104-106; what the gates and position formulas make of its answer is stated by `SiteLaws.BridgeKept` and `SiteLaws.HollowKept` |
| SiteGenerator.TopAt | add_adsorbate.py:83-86 | the Top decision for one surface atom; its contract is `SiteLaws.TopDecision` |
| SiteGenerator.BridgeAt | add_adsorbate.py:91-96 | the Bridge decision for one pair of surface-list positions; its contract is `SiteLaws.BridgeKept` and `SiteLaws.BridgeRejected` |
| SiteGenerator.HollowAt | add_adsorbate.py:103-111 | the Hollow decision for one triple of surface-list positions; its contract is `SiteLaws.HollowKept` and `SiteLaws.HollowRejected` |
| SiteGenerator.AllSites | add_adsorbate.py:79-111 | the reference output list, the Top, Bridge and Hollow passes in that order (`TopSites` for lines 82-86, `BridgeSites` for lines 89-96, `HollowSites` for lines 100-111); `GenerateSites` is proved equal to it, and the `SiteLaws` lemmas state its order, contents, counts and distinctness |
| SiteGenerator.GenerateSites | add_adsorbate.py:76-114 | the list built by the three passes equals the reference list `AllSites`: Top sites, then Bridge sites, then Hollow sites |
| SiteGenerator.AppendTopSites | add_adsorbate.py:82-86 | the Top loop appends the Top decisions of the surface atoms in surface-list order |
| SiteGenerator.TopStep | add_adsorbate.py:83-86 | one Top iteration: the site one adsorption distance above the atom, or nothing when it fails the margin |
| SiteGenerator.AppendBridgeSites | add_adsorbate.py:89-96 | the Bridge loops append the rows i = 0, 1, ... of accepted pairs |
| SiteGenerator.AppendBridgeRow | add_adsorbate.py:90-96 | the inner Bridge loop appends the accepted pairs (i, j), j > i, by ascending j |
| SiteGenerator.BridgeStep | add_adsorbate.py:91-96 | one Bridge iteration: the oracle call, the distance gate, the midpoint along the displacement, the lift and the margin test |
| SiteGenerator.AppendHollowSites | add_adsorbate.py:99-111 | the Hollow loops append the planes i = 0, 1, ... of accepted triples |
| SiteGenerator.AppendHollowPlane | add_adsorbate.py:101-111 | the middle Hollow loop appends the rows (i, j), j > i |
| SiteGenerator.AppendHollowRow | add_adsorbate.py:102-111 | the innermost Hollow loop appends the accepted triples (i, j, k), k > j, by ascending k |
| SiteGenerator.HollowStep | add_adsorbate.py:103-111 | one Hollow iteration: three oracle calls, the three-sided gate, the centroid from the two displacements out of the first atom, the lift and the margin test |
| Combinations.PairRowSnoc | add_adsorbate.py:90 | one more inner Bridge iteration appends that pair's decision |
| Combinations.PairsBeforeSnoc | add_adsorbate.py:89 | one more outer Bridge iteration appends that row |
| Combinations.PairRowOrigins | add_adsorbate.py:90 | each value kept by a row comes from an accepted pair (i, j) with i < j < m, with j strictly ascending, and every accepted pair of the row is among these origins |
| Combinations.PairRowComplete | add_adsorbate.py:90 | every accepted pair of a row contributes its value |
| Combinations.PairRowCount | add_adsorbate.py:90 | a row over j in i+1..m-1 keeps at most m-i-1 values |
| Combinations.PairsBeforeOrigins | add_adsorbate.py:89-90 | the values kept by the first i rows come from accepted pairs in strictly increasing lexicographic order, one per accepted pair: every accepted pair with first position below i is among the origins |
| Combinations.PairsBeforeComplete | add_adsorbate.py:89-90 | every accepted pair with first position below i contributes its value |
| Combinations.PairsBeforeCount | add_adsorbate.py:89-90 | the first i rows keep at most (n-1) + ... + (n-i) values |
| Combinations.PairsExactly | add_adsorbate.py:89-90 | a value is kept iff some pair i < j < n is accepted with it |
| Combinations.PairsCount | add_adsorbate.py:89-90 | at most n(n-1)/2 values over all pairs |
| Combinations.TripleRowSnoc | add_adsorbate.py:102 | one more innermost Hollow iteration appends that triple's decision |
| Combinations.TriplePlaneSnoc | add_adsorbate.py:101 | one more middle Hollow iteration appends that row |
| Combinations.TriplesBeforeSnoc | add_adsorbate.py:100 | one more outer Hollow iteration appends that plane |
| Combinations.TripleRowOrigins | add_adsorbate.py:102 | each value kept by a row comes from an accepted triple (i, j, k) with j < k < m, with k strictly ascending, and every accepted triple of the row is among these origins |
| Combinations.TripleRowComplete | add_adsorbate.py:102 | every accepted triple of a row contributes its value |
| Combinations.TripleRowCount | add_adsorbate.py:102 | a row over k in j+1..m-1 keeps at most m-j-1 values |
| Combinations.TriplePlaneOrigins | add_adsorbate.py:101-102 | the values kept by a plane come from accepted triples with first position i, in strictly increasing lexicographic order, one per accepted triple of the plane |
| Combinations.TriplePlaneComplete | add_adsorbate.py:101-102 | every accepted triple of a plane contributes its value |
| Combinations.TriplePlaneCount | add_adsorbate.py:101-102 | a plane keeps at most (n-i-2) + ... + (n-m) values |
| Combinations.TriplesBeforeOrigins | add_adsorbate.py:100-102 | the values kept by the first i planes come from accepted triples i < j < k < n in strictly increasing lexicographic order, one per accepted triple: every accepted triple with first position below i is among the origins |
| Combinations.TriplesBeforeComplete | add_adsorbate.py:100-102 | every accepted triple with first position below i contributes its value |
| Combinations.TriplesBeforeCount | add_adsorbate.py:100-102 | the first i planes keep at most C(n,3) - C(n-i,3) values |
| Combinations.TriplesExactly | add_adsorbate.py:100-102 | a value is kept iff some triple i < j < k < n is accepted with it |
| Combinations.TriplesCount | add_adsorbate.py:100-102 | at most n(n-1)(n-2)/6 values over all triples |
| SiteLaws.TopDecision | add_adsorbate.py:83-86 | a Top site is kept iff the adsorption distance exceeds the margin; it is one adsorption distance straight above its atom |
| SiteLaws.BridgeKept | add_adsorbate.py:91-96 | a kept Bridge site has its two atoms within the distance threshold, sits at the first atom plus half the minimum-image displacement plus the adsorption distance in z, and clears both atoms by more than the margin |
| SiteLaws.BridgeRejected | add_adsorbate.py:92-95 | a rejected Bridge pair failed the distance gate or the margin over one of its atoms |
| SiteLaws.HollowKept | add_adsorbate.py:104-111 | a kept Hollow site has all three sides within the threshold, sits at the first atom plus a third of the sum of the two displacements out of it, plus the adsorption distance in z, and clears all three atoms by more than the margin |
| SiteLaws.HollowRejected | add_adsorbate.py:107-110 | a rejected Hollow triple failed one of the three distance gates or the margin over one of its atoms |
| SiteLaws.TopsLaw | add_adsorbate.py:82-86 | the Top loop over the first m atoms keeps all m (adsorption distance above margin) or none, the k-th over the k-th surface atom |
| SiteLaws.TopSitesInOrder | add_adsorbate.py:82-86 | there is one Top site per surface atom, in surface-list order, or none at all |
| SiteLaws.BridgeSitesInOrder | add_adsorbate.py:89-96 | the Bridge sites come from accepted surface-list pairs i < j in strictly increasing lexicographic order, one site per accepted pair |
| SiteLaws.BridgeSitesExactly | add_adsorbate.py:89-96 | a site is a Bridge site iff some pair i < j is accepted with it |
| SiteLaws.BridgeSitesCount | add_adsorbate.py:89-96 | at most n(n-1)/2 Bridge sites |
| SiteLaws.HollowSitesInOrder | add_adsorbate.py:100-111 | the Hollow sites come from accepted triples i < j < k in strictly increasing lexicographic order, one site per accepted triple |
| SiteLaws.HollowSitesExactly | add_adsorbate.py:100-111 | a site is a Hollow site iff some triple i < j < k is accepted with it |
| SiteLaws.HollowSitesCount | add_adsorbate.py:100-111 | at most n(n-1)(n-2)/6 Hollow sites |
| SiteLaws.HighestZ | add_adsorbate.py:95 | the highest z among a site's atoms: at least each of them and attained by one |
| SiteLaws.TopWellPlaced | add_adsorbate.py:85 | a Top site sits on one surface atom and clears it by more than the margin |
| SiteLaws.BridgeWellPlaced | add_adsorbate.py:95 | a Bridge site sits on two surface atoms and clears the higher by more than the margin |
| SiteLaws.HollowWellPlaced | add_adsorbate.py:110 | a Hollow site sits on three surface atoms and clears the highest by more than the margin |
| SiteLaws.AllSitesWellPlaced | add_adsorbate.py:85-110 | every generated site sits on one, two or three surface atoms as its kind says, and clears the highest of them by more than the margin |
| SiteLaws.SegmentKinds | add_adsorbate.py:81-111 | the kind of each output position is the kind of the pass that produced it |
| SiteLaws.KindsInOrder | add_adsorbate.py:81-111 | all Top sites come before all Bridge sites, which come before all Hollow sites |
| SiteLaws.TopKeysDistinct | add_adsorbate.py:82-86 | over a surface list without repeats, no two Top sites share their atom |
| SiteLaws.BridgeKeysDistinct | add_adsorbate.py:89-96 | over a surface list without repeats, no two Bridge sites share their atoms |
| SiteLaws.HollowKeysDistinct | add_adsorbate.py:100-111 | over a surface list without repeats, no two Hollow sites share their atoms |
| SiteLaws.SitesDistinct | add_adsorbate.py:81-111 | over a surface list without repeats, no two sites share kind and atoms |
| Text.NatToString | add_adsorbate.py:86 | Python's `str` of an index is a non-empty string of digits without a leading zero; it starts with `0` only for zero |
| Text.NatToStringInjective | add_adsorbate.py:86 | different indices render differently |
| Text.NatToStringHasNoSeparator | add_adsorbate.py:96 | a rendered index contains no `_` |
| SiteLabels.Label | add_adsorbate.py:86 | the label `Top_a`, `Bridge_a_b` or `Hollow_a_b_c` of a site, as on lines 86, 96 and 111; `LabelFields` and `LabelInjective` state what it determines |
| SiteLabels.LabelFields | add_adsorbate.py:86 | the fields of `Top_a`, `Bridge_a_b` and `Hollow_a_b_c` are the kind's name, then the atom indices |
| SiteLabels.LabelInjective | add_adsorbate.py:96 | equal labels mean equal kind and equal atoms |
| SiteLabels.LabelsUnique | add_adsorbate.py:81-111 | over a surface list without repeats, every generated site gets its own label |
| Assembler.Slab.constructor | add_adsorbate.py:118 | a slab holds the given symbols, positions, cell and periodicity |
| Assembler.Slab.Count | add_adsorbate.py:119 | the number of atoms, equal to the number of symbols and of positions |
| Assembler.Slab.Copy | add_adsorbate.py:118 | `copy()` gives a fresh slab with the same atoms, cell and periodicity |
| Assembler.Slab.Append | add_adsorbate.py:119 | `+= Atom(...)` appends one symbol and one position; the cell and the periodicity stay |
| Assembler.AddAdsorbate | add_adsorbate.py:118-119 | the result is a fresh slab with exactly one more atom, the adsorbate, last and at the given position; the earlier atoms, the cell and the periodicity are those of the input, and the input is unchanged |
| Pipeline.FileName | add_adsorbate.py:120 | `{base}_{label}.vasp`: the base, an underscore, the label and `.vasp`, in that order and nothing else |
| Pipeline.FileNameInjective | add_adsorbate.py:120 | different labels give different names `{base}_{label}.vasp` |
| Pipeline.SelectedSurfaceGivesDistinctFiles | add_adsorbate.py:53-65 | a surface list from the selection names atoms of the slab and holds no atom twice, so every generated site gets its own output file name |

## Left out

- `align_slab_to_z` is not modelled. It is floating-point rotation, with no discrete content.
- The percentile computation (`np.percentile`) is not modelled. The threshold `zTh` is an input to `SelectSurface`.
- `ConvexHull` and `find_mic` are function parameters, not implementations. The hull geometry is not verified. The minimum-image parameter needs no constraint, not even a non-negative distance, because no property depends on one.
- Floating-point rounding is not modelled: coordinates are exact reals. A float comparison at the margin could go the other way from the real one.
- Logging is not modelled. Neither are `main`, argument parsing, directory traversal, reading structures, and the file write on lines 120-122. Only the file name is modelled.
- A site is the value `Site(kind, atoms, position)`. Its label `Label(s)` is computed by a function instead of being stored in a tuple beside the position. The two carry the same information, as `LabelInjective` shows.
- Assembler.AddAdsorbate: accepts any string as the adsorbate symbol. On line 119 `Atom(ads, ...)` looks the symbol up in ASE's element table and raises `KeyError` for a string that is not an element symbol (such as `Xx` or `h`); nothing catches it, so the run aborts. The element table is part of ASE and is not modelled, so neither is that error.
- ASE's `Atoms` carries more per-atom arrays than symbols and positions (tags, momenta and others). `Slab` keeps only symbols and positions, and the cell and periodicity.
- Positions and the cell are read-only in the site generator because `GenerateSites` takes them as values: `get_positions()` returns a copy in the source.
