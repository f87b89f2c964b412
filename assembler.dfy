/**
 * The slab as a mutable collection of atoms, and the step that places one
 * adsorbate atom on a copy of it before the copy is written out.
 */
module Assembler {
  import opened Geometry

  /** An atomic structure: chemical symbols and positions side by side, the cell and its periodicity. */
  class Slab {
    var symbols: seq<string>
    var positions: seq<Vec3>
    var cell: Cell
    var pbc: Pbc

    /** One symbol per position. */
    ghost predicate Valid()
      reads this
    {
      |symbols| == |positions|
    }

    constructor (symbols: seq<string>, positions: seq<Vec3>, cell: Cell, pbc: Pbc)
      requires |symbols| == |positions|
      ensures Valid()
      ensures this.symbols == symbols && this.positions == positions
      ensures this.cell == cell && this.pbc == pbc
    {
      this.symbols := symbols;
      this.positions := positions;
      this.cell := cell;
      this.pbc := pbc;
    }

    /** The number of atoms. */
    function Count(): (n: nat)
      reads this
      requires Valid()
      ensures n == |symbols| && n == |positions|
    {
      |positions|
    }

    /** `copy()`: a new slab with the same atoms, cell and periodicity. */
    method Copy() returns (c: Slab)
      requires Valid()
      ensures fresh(c) && c.Valid()
      ensures c.symbols == symbols && c.positions == positions
      ensures c.cell == cell && c.pbc == pbc
    {
      c := new Slab(symbols, positions, cell, pbc);
    }

    /** `+= Atom(symbol, position)`: one more atom at the end; the cell and the periodicity stay. */
    method Append(symbol: string, position: Vec3)
      requires Valid()
      modifies this
      ensures Valid()
      ensures symbols == old(symbols) + [symbol] && positions == old(positions) + [position]
      ensures cell == old(cell) && pbc == old(pbc)
    {
      symbols := symbols + [symbol];
      positions := positions + [position];
    }
  }

  /**
   * The structure written for one site: a copy of the slab with the
   * adsorbate atom appended at the site position. The slab itself is left as
   * it was, so every site starts from the same clean slab.
   */
  method AddAdsorbate(slab: Slab, ads: string, position: Vec3) returns (slab2: Slab)
    requires slab.Valid()
    ensures fresh(slab2) && slab2.Valid() && unchanged(slab)
    ensures slab2.Count() == slab.Count() + 1
    ensures slab2.symbols[slab.Count()] == ads && slab2.positions[slab.Count()] == position
    ensures slab2.symbols[..slab.Count()] == slab.symbols && slab2.positions[..slab.Count()] == slab.positions
    ensures slab2.cell == slab.cell && slab2.pbc == slab.pbc
  {
    slab2 := slab.Copy();
    slab2.Append(ads, position);
    assert slab2.symbols[..slab.Count()] == slab.symbols;
    assert slab2.positions[..slab.Count()] == slab.positions;
  }
}
