/**
 * Discovery of the images a job's label expression asks for: every atom of
 * the form `docker/<image>` with a non-empty image name, found by walking the
 * expression tree depth first, field by field.
 */
module LabelImages {
  import opened Common

  const ImageLabelPrefix: string := "docker/"

  /**
   * A label expression. An atom is a leaf; any other expression is an
   * operator node whose label-typed fields, in declaration order, are its
   * operands, each of which may be null.
   */
  datatype Label = Atom(name: string) | Composite(operands: seq<Option<Label>>)

  /** An atom that names an image: the prefix followed by at least one char. */
  predicate IsImageAtom(name: string)
  {
    StartsWith(name, ImageLabelPrefix) && |name| > |ImageLabelPrefix|
  }

  /**
   * discoverPotentialImages: appends to results the image atoms of the
   * expression; a null expression adds nothing and an atom is never
   * descended into.
   */
  function Discover(expr: Option<Label>, results: seq<string>): (r: seq<string>)
    ensures |results| <= |r| && r[..|results|] == results
    ensures forall k :: |results| <= k < |r| ==> IsImageAtom(r[k])
    decreases expr, 1
  {
    match expr
    case None => results
    case Some(l) =>
      match l
      case Atom(name) => if IsImageAtom(name) then results + [name] else results
      case Composite(operands) => DiscoverFields(l, 0, results)
  }

  /** The loop over the label-typed fields of an operator node, from field i on. */
  function DiscoverFields(l: Label, i: nat, results: seq<string>): (r: seq<string>)
    requires l.Composite? && i <= |l.operands|
    ensures |results| <= |r| && r[..|results|] == results
    ensures forall k :: |results| <= k < |r| ==> IsImageAtom(r[k])
    decreases l, 0, |l.operands| - i
  {
    if i == |l.operands| then results
    else DiscoverFields(l, i + 1, Discover(l.operands[i], results))
  }

  /** listPotentialImages: the discovery started from an empty list. */
  function ListPotentialImages(expr: Option<Label>): seq<string>
  {
    Discover(expr, [])
  }

  /** extractImageName: the atom's text after the prefix. */
  function ExtractImageName(atom: string): (r: string)
    requires |atom| >= |ImageLabelPrefix|
    ensures |r| == |atom| - |ImageLabelPrefix|
    ensures StartsWith(atom, ImageLabelPrefix) ==> ImageLabelPrefix + r == atom
  {
    atom[|ImageLabelPrefix|..]
  }

  // ---------------------------------------------------------------------
  // A reference definition: all atoms, then a filter
  // ---------------------------------------------------------------------

  /** Every atom of the expression, depth first, operands in order. */
  function Atoms(expr: Option<Label>): seq<string>
    decreases expr, 1
  {
    match expr
    case None => []
    case Some(l) =>
      match l
      case Atom(name) => [name]
      case Composite(operands) => AtomsOfFields(l, 0)
  }

  function AtomsOfFields(l: Label, i: nat): seq<string>
    requires l.Composite? && i <= |l.operands|
    decreases l, 0, |l.operands| - i
  {
    if i == |l.operands| then [] else Atoms(l.operands[i]) + AtomsOfFields(l, i + 1)
  }

  /** The names that are image atoms, in order. */
  function ImageAtoms(names: seq<string>): seq<string>
  {
    if names == [] then []
    else (if IsImageAtom(names[0]) then [names[0]] else []) + ImageAtoms(names[1..])
  }

  lemma {:induction false} ImageAtomsAppend(a: seq<string>, b: seq<string>)
    ensures ImageAtoms(a + b) == ImageAtoms(a) + ImageAtoms(b)
  {
    if a != [] {
      assert (a + b)[1..] == a[1..] + b;
      ImageAtomsAppend(a[1..], b);
    } else {
      assert a + b == b;
    }
  }

  /** Discovery appends exactly the image atoms of the expression, in depth-first order. */
  lemma {:induction false} DiscoverIsFilteredAtoms(expr: Option<Label>, results: seq<string>)
    ensures Discover(expr, results) == results + ImageAtoms(Atoms(expr))
    decreases expr, 1
  {
    match expr
    case None =>
    case Some(l) =>
      match l
      case Atom(name) =>
        assert ImageAtoms([name]) == (if IsImageAtom(name) then [name] else []) + ImageAtoms([]);
      case Composite(operands) =>
        DiscoverFieldsIsFilteredAtoms(l, 0, results);
  }

  lemma {:induction false} DiscoverFieldsIsFilteredAtoms(l: Label, i: nat, results: seq<string>)
    requires l.Composite? && i <= |l.operands|
    ensures DiscoverFields(l, i, results) == results + ImageAtoms(AtomsOfFields(l, i))
    decreases l, 0, |l.operands| - i
  {
    if i == |l.operands| {
      assert results + [] == results;
    } else {
      var mid := Discover(l.operands[i], results);
      DiscoverIsFilteredAtoms(l.operands[i], results);
      DiscoverFieldsIsFilteredAtoms(l, i + 1, mid);
      ImageAtomsAppend(Atoms(l.operands[i]), AtomsOfFields(l, i + 1));
      assert results + ImageAtoms(Atoms(l.operands[i])) + ImageAtoms(AtomsOfFields(l, i + 1))
          == results + (ImageAtoms(Atoms(l.operands[i])) + ImageAtoms(AtomsOfFields(l, i + 1)));
    }
  }

  /** A name is among the image atoms of a list exactly when it is in the list and names an image. */
  lemma {:induction false} ImageAtomsMembers(names: seq<string>)
    ensures forall x :: x in ImageAtoms(names) <==> x in names && IsImageAtom(x)
  {
    if names != [] {
      ImageAtomsMembers(names[1..]);
      assert names == [names[0]] + names[1..];
    }
  }

  /**
   * listPotentialImages returns the image atoms of the expression in
   * depth-first order: a name is listed exactly when it is an atom of the
   * expression and has the prefix and a non-empty image name.
   */
  lemma PotentialImagesAreImageAtoms(expr: Option<Label>)
    ensures ListPotentialImages(expr) == ImageAtoms(Atoms(expr))
    ensures forall x :: x in ListPotentialImages(expr) <==> x in Atoms(expr) && IsImageAtom(x)
  {
    DiscoverIsFilteredAtoms(expr, []);
    assert [] + ImageAtoms(Atoms(expr)) == ImageAtoms(Atoms(expr));
    ImageAtomsMembers(Atoms(expr));
  }

  /** Every discovered atom is the prefix followed by a non-empty image name. */
  lemma DiscoveredImageNames(expr: Option<Label>)
    ensures forall a :: a in ListPotentialImages(expr) ==>
      |a| >= |ImageLabelPrefix| && ImageLabelPrefix + ExtractImageName(a) == a && ExtractImageName(a) != []
  {
    var found := ListPotentialImages(expr);
    assert forall k :: 0 <= k < |found| ==> IsImageAtom(found[k]);
  }

  /** A null expression and an atom with no image name list nothing; an image atom lists itself only. */
  lemma DiscoverLeaves(name: string)
    ensures ListPotentialImages(None) == []
    ensures ListPotentialImages(Some(Atom(name))) == if IsImageAtom(name) then [name] else []
  {
  }

  /** The expression `docker/ubuntu && linux` asks for the one image ubuntu. */
  lemma ExampleUbuntuAndLinux()
    ensures ListPotentialImages(Some(Composite([Some(Atom("docker/ubuntu")), Some(Atom("linux"))]))) == ["docker/ubuntu"]
    ensures ExtractImageName("docker/ubuntu") == "ubuntu"
  {
    var l := Composite([Some(Atom("docker/ubuntu")), Some(Atom("linux"))]);
    assert IsImageAtom("docker/ubuntu");
    assert !IsImageAtom("linux");
    assert DiscoverFields(l, 2, ["docker/ubuntu"]) == ["docker/ubuntu"];
  }
}
