/** The two directory listings file_backup relies on: os.listdir for the
    entries of one directory, and a recursive glob for every entry below a
    folder. Both come in an order the operating system chooses, so the
    methods here pick each next entry nondeterministically. */
module Listing {
  import opened Files

  /** The names of the entries directly inside directory d of t. */
  function ChildNames(t: Tree, d: Path): (names: set<Name>)
    ensures forall n :: n in names <==> d + [n] in t
  {
    var names := set p | p in t.Keys && |p| == |d| + 1 && p[..|d|] == d :: p[|d|];
    assert forall n :: d + [n] in t ==> (d + [n])[..|d|] == d && n in names;
    assert forall p | p in t.Keys && |p| == |d| + 1 && p[..|d|] == d :: p == d + [p[|d|]];
    names
  }

  /** The paths of the entries strictly below d in t, relative to d. */
  function Descendants(t: Tree, d: Path): (rels: set<Path>)
    ensures forall rel :: rel in rels <==> rel != [] && d + rel in t
  {
    var rels := set p | p in t.Keys && Below(p, d) :: p[|d|..];
    assert forall rel | rel != [] && d + rel in t :: Below(d + rel, d) && (d + rel)[|d|..] == rel;
    assert forall p | p in t.Keys && Below(p, d) :: p == d + p[|d|..];
    rels
  }

  /** os.listdir(folder): every entry directly inside directory d, once each. */
  method ListDir(t: Tree, d: Path) returns (names: seq<Name>)
    ensures Distinct(names)
    ensures forall n :: n in names <==> d + [n] in t
  {
    var left := ChildNames(t, d);
    names := [];
    while left != {}
      invariant Distinct(names)
      invariant forall n :: n in names <==> d + [n] in t && n !in left
      invariant forall n :: n in left ==> d + [n] in t
      decreases left
    {
      var n :| n in left;
      names := names + [n];
      left := left - {n};
    }
  }

  /** glob.iglob(folder + '**' + '/' + '**', recursive=True), each result cut to
      its path relative to the folder: the folder itself comes first (as the
      empty path), then every entry below it, once each. */
  method Glob(t: Tree, d: Path) returns (rels: seq<Path>)
    ensures rels != [] && rels[0] == []
    ensures Distinct(rels)
    ensures forall rel :: rel in rels[1..] <==> rel != [] && d + rel in t
  {
    var left := Descendants(t, d);
    rels := [[]];
    while left != {}
      invariant rels != [] && rels[0] == []
      invariant Distinct(rels)
      invariant forall rel :: rel in rels[1..] <==> rel in Descendants(t, d) && rel !in left
      invariant left <= Descendants(t, d)
      decreases left
    {
      var rel :| rel in left;
      assert rel != [];
      assert (rels + [rel])[1..] == rels[1..] + [rel];
      rels := rels + [rel];
      left := left - {rel};
    }
  }
}
