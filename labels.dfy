/**
 * Site labels: "Top_7", "Bridge_3_9", "Hollow_3_9_12". A label is the kind's
 * name followed by `_` and the decimal index of each atom; it names the
 * output file, so distinct sites must get distinct labels.
 */
module SiteLabels {
  import opened Common
  import opened Text
  import opened SiteGenerator
  import opened SiteLaws

  function KindName(k: Kind): string
  {
    match k
    case Top => "Top"
    case Bridge => "Bridge"
    case Hollow => "Hollow"
  }

  /** `_i` for each atom index `i`, in order. */
  function Suffix(atoms: seq<nat>): string
  {
    if atoms == [] then "" else "_" + NatToString(atoms[0]) + Suffix(atoms[1..])
  }

  /** The label the generator pairs with a site. */
  function Label(s: Site): string
  {
    KindName(s.kind) + Suffix(s.atoms)
  }

  /** The decimal rendering of each atom index. */
  function Rendered(atoms: seq<nat>): (r: seq<string>)
    ensures |r| == |atoms|
  {
    if atoms == [] then [] else [NatToString(atoms[0])] + Rendered(atoms[1..])
  }

  /** Splitting `x` followed by a suffix at `_` gives back `x` and the rendered indices. */
  lemma {:induction false} FieldsOfSuffix(x: string, atoms: seq<nat>)
    requires '_' !in x
    ensures Fields(x + Suffix(atoms)) == [x] + Rendered(atoms)
    decreases |atoms|
  {
    if atoms == [] {
      assert x + Suffix(atoms) == x;
      FieldsOfPlain(x);
    } else {
      var head := NatToString(atoms[0]);
      NatToStringHasNoSeparator(atoms[0]);
      assert x + Suffix(atoms) == x + "_" + (head + Suffix(atoms[1..]));
      FieldsAfterSeparator(x, head + Suffix(atoms[1..]));
      FieldsOfSuffix(head, atoms[1..]);
    }
  }

  /** The fields of a label: the kind's name, then the atom indices in decimal. */
  lemma LabelFields(s: Site)
    ensures Fields(Label(s)) == [KindName(s.kind)] + Rendered(s.atoms)
  {
    var name := KindName(s.kind);
    assert '_' !in name by {
      assert forall c :: c in name ==> c != '_';
    }
    FieldsOfSuffix(name, s.atoms);
  }

  lemma {:induction false} RenderedInjective(a: seq<nat>, b: seq<nat>)
    requires Rendered(a) == Rendered(b)
    ensures a == b
    decreases |a|
  {
    if a != [] {
      assert Rendered(a) == [NatToString(a[0])] + Rendered(a[1..]);
      assert Rendered(b) == [NatToString(b[0])] + Rendered(b[1..]);
      assert Rendered(a)[0] == NatToString(a[0]) && Rendered(b)[0] == NatToString(b[0]);
      assert Rendered(a)[1..] == Rendered(a[1..]) && Rendered(b)[1..] == Rendered(b[1..]);
      NatToStringInjective(a[0], b[0]);
      RenderedInjective(a[1..], b[1..]);
      assert a == [a[0]] + a[1..];
      assert b == [b[0]] + b[1..];
    }
  }

  /** Equal labels mean equal kind and equal atoms. */
  lemma LabelInjective(s: Site, t: Site)
    ensures Label(s) == Label(t) ==> s.kind == t.kind && s.atoms == t.atoms
  {
    LabelFields(s);
    LabelFields(t);
    var fs, ft := Fields(Label(s)), Fields(Label(t));
    assert fs[0] == KindName(s.kind) && ft[0] == KindName(t.kind);
    assert fs[1..] == Rendered(s.atoms) && ft[1..] == Rendered(t.atoms);
    if Rendered(s.atoms) == Rendered(t.atoms) {
      RenderedInjective(s.atoms, t.atoms);
    }
  }

  /** Over a surface list without repeats, every generated site gets its own label, hence its own output file. */
  lemma LabelsUnique(g: SiteInputs)
    requires Fits(g) && Distinct(g.surface)
    ensures forall x, y :: 0 <= x < y < |AllSites(g)| ==> Label(AllSites(g)[x]) != Label(AllSites(g)[y])
  {
    SitesDistinct(g);
    forall x, y | 0 <= x < y < |AllSites(g)| ensures Label(AllSites(g)[x]) != Label(AllSites(g)[y]) {
      LabelInjective(AllSites(g)[x], AllSites(g)[y]);
    }
  }
}
