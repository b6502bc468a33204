/** The filesystem as the synchroniser sees it: a tree of named entries,
    each a file with byte content or a directory, keyed by the path of the
    entry relative to the root of the tree. */
module Files {

  /** One byte of file content. */
  type byte = b: int | 0 <= b < 256

  /** A directory entry name as os.listdir reports it: never empty and
      never containing the path separator. */
  type Name = s: string | s != [] && '/' !in s witness "a"

  /** A path relative to the root of a tree, one name per level; [] is the root. */
  type Path = seq<Name>

  datatype Node = File(content: seq<byte>) | Dir

  /** A directory tree. The root directory itself is implicit: it is not a key. */
  type Tree = map<Path, Node>

  /** p is q itself or lies somewhere below q. */
  predicate Within(p: Path, q: Path)
  {
    |q| <= |p| && p[..|q|] == q
  }

  /** p lies strictly below q. */
  predicate Below(p: Path, q: Path)
  {
    |q| < |p| && p[..|q|] == q
  }

  /** d names a directory of t (the root always does). */
  predicate IsDir(t: Tree, d: Path)
  {
    d == [] || (d in t && t[d].Dir?)
  }

  predicate IsFile(t: Tree, p: Path)
  {
    p in t && t[p].File?
  }

  /** The directory p sits in. */
  function Parent(p: Path): Path
    requires p != []
  {
    p[..|p| - 1]
  }

  /** Every entry sits in a directory that is itself in the tree. (The
      trigger keeps the solver from climbing the whole chain of ancestors
      each time it learns that an entry exists.) */
  ghost predicate WellFormed(t: Tree)
  {
    && [] !in t
    && forall p {:trigger Parent(p)} :: p in t && p != [] ==> IsDir(t, Parent(p))
  }

  /** Source and replica never disagree on the kind of a path they share. */
  ghost predicate KindsAgree(s: Tree, r: Tree)
  {
    forall p :: p in s && p in r ==> s[p].Dir? == r[p].Dir?
  }

  ghost predicate Distinct<T>(xs: seq<T>)
  {
    forall i, j :: 0 <= i < j < |xs| ==> xs[i] != xs[j]
  }

  lemma DistinctConcat<T>(xs: seq<T>, ys: seq<T>)
    requires Distinct(xs) && Distinct(ys)
    requires forall x :: x in xs ==> x !in ys
    ensures Distinct(xs + ys)
  {
    forall i, j | 0 <= i < j < |xs + ys|
      ensures (xs + ys)[i] != (xs + ys)[j]
    {
      if j >= |xs| && i < |xs| {
        assert xs[i] in xs && ys[j - |xs|] in ys;
      }
    }
  }

  /** A sequence is empty exactly when nothing is in it. */
  lemma NoMembers<T>(xs: seq<T>)
    ensures xs == [] <==> forall x :: x !in xs
  {
    if xs != [] {
      assert xs[0] in xs;
    }
  }

  /** An entry of a well-formed tree is not the root and sits in a directory. */
  lemma Entry(t: Tree, p: Path)
    requires WellFormed(t) && p in t
    ensures p != [] && IsDir(t, Parent(p))
  {
    assert IsDir(t, Parent(p));
  }

  /** In a well-formed tree every strict ancestor of an entry is a directory. */
  lemma {:induction false} AncestorIsDir(t: Tree, p: Path, q: Path)
    requires WellFormed(t) && p in t && Below(p, q)
    ensures IsDir(t, q)
    decreases |p|
  {
    var parent := Parent(p);
    assert IsDir(t, parent);
    if |parent| > |q| {
      assert parent[..|q|] == p[..|q|];
      AncestorIsDir(t, parent, q);
    } else {
      assert parent == q;
    }
  }

  /** The child of q on the way down to p is in the tree too. */
  lemma ChildOnPath(t: Tree, p: Path, q: Path)
    requires WellFormed(t) && p in t && Below(p, q)
    ensures q + [p[|q|]] in t
  {
    var c := q + [p[|q|]];
    assert p[..|c|] == c;
    if |p| > |c| {
      AncestorIsDir(t, p, c);
    } else {
      assert p == c;
    }
  }

  /** Nothing in a well-formed tree lies below one of its files. */
  lemma NothingBelowFile(t: Tree, p: Path, q: Path)
    requires WellFormed(t) && p in t && IsFile(t, q)
    ensures !Below(p, q)
  {
    if Below(p, q) {
      AncestorIsDir(t, p, q);
      Entry(t, q);
    }
  }

  /** Being below a child of d is being below d with that child's name first. */
  lemma WithinChild(p: Path, d: Path, n: Name)
    ensures Within(p, d + [n]) <==> Below(p, d) && p[|d|] == n
  {
    if Below(p, d) && p[|d|] == n {
      assert p[..|d| + 1] == p[..|d|] + [p[|d|]];
    }
    if Within(p, d + [n]) {
      assert p[..|d|] == (d + [n])[..|d|];
    }
  }

  lemma BelowTrans(p: Path, q: Path, d: Path)
    requires Below(p, q) && Within(q, d)
    ensures Below(p, d)
  {
    assert p[..|d|] == p[..|q|][..|d|];
  }

  /** Every entry strictly below d. */
  function Subtree(t: Tree, d: Path): set<Path>
  {
    set p | p in t.Keys && Below(p, d)
  }

  /** The subtree of a child entry is strictly smaller than its parent's. */
  lemma SubtreeShrinks(t: Tree, d: Path, n: Name)
    requires d + [n] in t
    ensures Subtree(t, d + [n]) < Subtree(t, d)
  {
    var c := d + [n];
    forall p | p in Subtree(t, c) ensures p in Subtree(t, d) {
      BelowTrans(p, c, d);
    }
    assert c[..|d|] == d;
    assert c in Subtree(t, d) && c !in Subtree(t, c);
  }

  /** os.remove: the entry p disappears. */
  function Remove(t: Tree, p: Path): (r: Tree)
    ensures p !in r
    ensures forall q :: q != p ==> (q in r <==> q in t)
    ensures forall q :: q in r ==> r[q] == t[q]
  {
    t - {p}
  }

  /** shutil.rmtree: p and everything below it disappear. */
  function RemoveTree(t: Tree, p: Path): (r: Tree)
    ensures forall q :: Within(q, p) ==> q !in r
    ensures forall q :: !Within(q, p) ==> (q in r <==> q in t)
    ensures forall q :: q in r ==> r[q] == t[q]
  {
    map q | q in t && !Within(q, p) :: t[q]
  }
}
