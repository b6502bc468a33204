/** What one pass of file_backup does to the replica, stated as functions of
    the source tree and the replica as it was when the pass began.

    A pass over directory d visits the source entries directly inside d and
    settles each of them (a directory is created, a file is copied unless its
    digest already matches, a sub-directory is synchronised recursively);
    Mirror is the replica after the entries under the child names in `done`
    have been settled. The deletion pass then removes every replica entry
    below d that the source does not have; Backed is the replica after the
    whole pass. */
module Reconcile {
  import opened Files
  import opened Digest
  import opened Listing

  datatype Status = New | Updated | Unchanged

  /** How file_backup classifies source file p against replica r: missing
      from the replica, present with a different digest, or present with the
      same digest. */
  function Classify(hash: seq<byte> -> Digest, s: Tree, r: Tree, p: Path): (st: Status)
    requires IsFile(s, p) && (p in r ==> r[p].File?)
    ensures st == New <==> p !in r
    ensures st == Updated <==> p in r && hash(s[p].content) != hash(r[p].content)
    ensures st == Unchanged <==> p in r && hash(s[p].content) == hash(r[p].content)
  {
    if p !in r then New
    else if hash(s[p].content) != hash(r[p].content) then Updated
    else Unchanged
  }

  /** Classification and settling of p look only at the replica's entry at p. */
  lemma SettledAlike(hash: seq<byte> -> Digest, s: Tree, r: Tree, t: Tree, p: Path)
    requires IsFile(s, p) && (p in r ==> r[p].File?)
    requires (p in r <==> p in t) && (p in r ==> r[p] == t[p])
    ensures Classify(hash, s, r, p) == Classify(hash, s, t, p)
    ensures Settled(hash, s, r, p) == Settled(hash, s, t, p)
  {
  }

  /** The replica's entry at p once the pass has dealt with source entry p:
      a directory stays or becomes a directory, a file with an unchanged
      digest is left as it was, any other file is a copy of the source's. */
  function Settled(hash: seq<byte> -> Digest, s: Tree, r: Tree, p: Path): Node
    requires p in s && (p in r ==> s[p].Dir? == r[p].Dir?)
  {
    if s[p].Dir? then Dir
    else if Classify(hash, s, r, p) == Unchanged then r[p]
    else s[p]
  }

  /** p lies below d under one of the child names in done. */
  predicate Covered(p: Path, d: Path, done: set<Name>)
  {
    Below(p, d) && p[|d|] in done
  }

  /** The replica once the pass over d has settled the source entries under
      the child names in done, before its deletion pass: a covered path holds
      what the source has there, settled; every other path is untouched. */
  function Mirror(hash: seq<byte> -> Digest, s: Tree, r: Tree, d: Path, done: set<Name>): Tree
    requires KindsAgree(s, r)
  {
    map p | p in s.Keys + r.Keys && (if Covered(p, d, done) then p in s else p in r) ::
      if Covered(p, d, done) then Settled(hash, s, r, p) else r[p]
  }

  /** The replica after the whole pass over d. */
  function Backed(hash: seq<byte> -> Digest, s: Tree, r: Tree, d: Path): Tree
    requires KindsAgree(s, r)
  {
    Mirror(hash, s, r, d, ChildNames(s, d) + ChildNames(r, d))
  }

  /** The paths, relative to e, that the deletion pass over e reports: the
      replica entries below e whose child of e has no source counterpart.
      Entries below a stale directory are reported along with it. */
  function Stale(s: Tree, r: Tree, e: Path): (rels: set<Path>)
    ensures forall rel :: rel in rels <==> rel != [] && e + rel in r && e + [rel[0]] !in s
  {
    var rels := set p | p in r.Keys && Below(p, e) && e + [p[|e|]] !in s :: p[|e|..];
    forall rel | rel != [] && e + rel in r && e + [rel[0]] !in s
      ensures rel in rels
    {
      var p := e + rel;
      assert Below(p, e) && p[|e|] == rel[0] && p[|e|..] == rel;
    }
    forall p | p in r.Keys && Below(p, e) && e + [p[|e|]] !in s
      ensures p[|e|..] != [] && e + p[|e|..] in r && e + [p[|e|..][0]] !in s
    {
      assert p == e + p[|e|..];
    }
    rels
  }

  /** What the deletion pass leaves of t: nothing below d that the source lacks. */
  function RemoveStale(t: Tree, s: Tree, d: Path): Tree
  {
    map p | p in t && !(Below(p, d) && p !in s) :: t[p]
  }

  /** The two trees hold the same entries strictly below p. */
  ghost predicate AgreeBelow(t: Tree, r: Tree, p: Path)
  {
    forall q :: Below(q, p) ==> (q in t <==> q in r) && (q in t ==> t[q] == r[q])
  }

  // ---------------------------------------------------------------------
  // Steps of the pass, each proved to move from one Mirror to the next.

  /** Settling no child at all leaves the replica as it was. */
  lemma MirrorNothing(hash: seq<byte> -> Digest, s: Tree, r: Tree, d: Path)
    requires KindsAgree(s, r)
    ensures Mirror(hash, s, r, d, {}) == r
  {
  }

  /** Every partial state of the pass is a well-formed replica that still
      agrees with the source on kinds, and d is still a directory in it. */
  lemma MirrorValid(hash: seq<byte> -> Digest, s: Tree, r: Tree, d: Path, done: set<Name>)
    requires WellFormed(s) && WellFormed(r) && KindsAgree(s, r)
    requires IsDir(r, d)
    ensures WellFormed(Mirror(hash, s, r, d, done))
    ensures KindsAgree(s, Mirror(hash, s, r, d, done))
    ensures IsDir(Mirror(hash, s, r, d, done), d)
  {
    var m := Mirror(hash, s, r, d, done);
    forall p | p in m && p != []
      ensures IsDir(m, Parent(p))
    {
      if p in s { Entry(s, p); } else { Entry(r, p); }
      var parent := Parent(p);
      if Covered(p, d, done) {
        assert p in s;
        if |p| > |d| + 1 {
          assert parent[..|d|] == d && parent[|d|] == p[|d|];
          assert Covered(parent, d, done);
        } else {
          assert parent == d;
        }
      } else {
        assert p in r && IsDir(r, parent);
      }
    }
  }

  /** Settling a source file p = d + [n]: only p changes, and it becomes its
      settled entry; before that the partial state still holds at p what the
      replica held when the pass began. */
  lemma MirrorFileStep(hash: seq<byte> -> Digest, s: Tree, r: Tree, d: Path, done: set<Name>, n: Name)
    requires WellFormed(s) && WellFormed(r) && KindsAgree(s, r)
    requires IsFile(s, d + [n]) && n !in done
    ensures var m := Mirror(hash, s, r, d, done);
      && (d + [n] in m <==> d + [n] in r)
      && (d + [n] in r ==> m[d + [n]] == r[d + [n]] && r[d + [n]].File?)
      && m[d + [n] := Settled(hash, s, r, d + [n])] == Mirror(hash, s, r, d, done + {n})
  {
    var p := d + [n];
    var m := Mirror(hash, s, r, d, done);
    var m' := Mirror(hash, s, r, d, done + {n});
    assert !Covered(p, d, done) by {
      assert p[|d|] == n;
    }
    assert Covered(p, d, done + {n}) by {
      assert p[..|d|] == d && p[|d|] == n;
    }
    forall q | q in s.Keys + r.Keys && q != p
      ensures Covered(q, d, done) == Covered(q, d, done + {n})
    {
      if Covered(q, d, done + {n}) && !Covered(q, d, done) {
        WithinChild(q, d, n);
        if q in s {
          NothingBelowFile(s, q, p);
        } else if p in r {
          NothingBelowFile(r, q, p);
        } else {
          AncestorIsDir(r, q, p);
        }
      }
    }
    assert m[p := Settled(hash, s, r, p)] == m';
  }

  /** Settling a source directory p = d + [n]: once p exists in the replica,
      the recursive pass over p turns the partial state into the next one.
      Below p the state handed to the recursive pass is still the replica as
      the pass over d found it. */
  lemma MirrorDirStep(hash: seq<byte> -> Digest, s: Tree, r: Tree, d: Path, done: set<Name>, n: Name, t: Tree)
    requires WellFormed(s) && WellFormed(r) && KindsAgree(s, r) && IsDir(r, d)
    requires IsDir(s, d + [n]) && n !in done
    requires var m := Mirror(hash, s, r, d, done);
      t == if d + [n] in m then m else m[d + [n] := Dir]
    ensures WellFormed(t) && KindsAgree(s, t) && IsDir(t, d + [n])
    ensures AgreeBelow(t, r, d + [n])
    ensures Backed(hash, s, t, d + [n]) == Mirror(hash, s, r, d, done + {n})
  {
    var p := d + [n];
    DirStepValid(hash, s, r, d, done, n, t);
    var b := Backed(hash, s, t, p);
    var m' := Mirror(hash, s, r, d, done + {n});
    forall q | q in s.Keys + t.Keys + r.Keys
      ensures (q in b <==> q in m') && (q in b ==> b[q] == m'[q])
    {
      DirStepAt(hash, s, r, d, done, n, t, q);
    }
    assert b.Keys <= s.Keys + t.Keys + r.Keys;
    assert m'.Keys <= s.Keys + t.Keys + r.Keys;
    assert b == m';
  }

  /** The state handed to the recursive pass over p = d + [n] is a valid
      replica in which p is a directory, and below p it is the replica as the
      pass over d found it. */
  lemma DirStepValid(hash: seq<byte> -> Digest, s: Tree, r: Tree, d: Path, done: set<Name>, n: Name, t: Tree)
    requires WellFormed(s) && WellFormed(r) && KindsAgree(s, r) && IsDir(r, d)
    requires IsDir(s, d + [n]) && n !in done
    requires var m := Mirror(hash, s, r, d, done);
      t == if d + [n] in m then m else m[d + [n] := Dir]
    ensures WellFormed(t) && KindsAgree(s, t) && IsDir(t, d + [n])
    ensures AgreeBelow(t, r, d + [n])
  {
    var p := d + [n];
    var m := Mirror(hash, s, r, d, done);
    MirrorValid(hash, s, r, d, done);
    assert p[..|d|] == d && p[|d|] == n;
    assert !Covered(p, d, done);
    assert WellFormed(t) by {
      forall q | q in t && q != [] ensures IsDir(t, Parent(q)) {
        if q == p {
          assert Parent(q) == d;
        } else {
          Entry(m, q);
        }
      }
    }
    forall q | Below(q, p)
      ensures (q in t <==> q in r) && (q in t ==> t[q] == r[q])
    {
      WithinChild(q, d, n);
      assert !Covered(q, d, done);
    }
  }

  /** MirrorDirStep at one path q. */
  lemma DirStepAt(hash: seq<byte> -> Digest, s: Tree, r: Tree, d: Path, done: set<Name>, n: Name, t: Tree, q: Path)
    requires WellFormed(s) && WellFormed(t) && KindsAgree(s, r) && KindsAgree(s, t)
    requires IsDir(s, d + [n]) && n !in done
    requires var m := Mirror(hash, s, r, d, done);
      t == if d + [n] in m then m else m[d + [n] := Dir]
    requires AgreeBelow(t, r, d + [n])
    requires q in s || q in t || q in r
    ensures var b := Backed(hash, s, t, d + [n]);
      var m' := Mirror(hash, s, r, d, done + {n});
      (q in b <==> q in m') && (q in b ==> b[q] == m'[q])
  {
    var p := d + [n];
    WithinChild(q, d, n);
    if Below(q, p) {
      assert Covered(q, d, done + {n});
      if q in s {
        ChildOnPath(s, q, p);
      } else if q in t {
        ChildOnPath(t, q, p);
      }
      assert q in s || q in t ==> Covered(q, p, ChildNames(s, p) + ChildNames(t, p));
    } else if q == p {
      assert Covered(q, d, done + {n});
    } else {
      assert !Within(q, p);
      assert Covered(q, d, done + {n}) == Covered(q, d, done);
    }
  }

  /** The deletion pass completes the pass: removing what the source lacks
      below d from the state after all source children are settled gives
      Backed, and what it removes is exactly Stale(s, r, d). */
  lemma FinishPass(hash: seq<byte> -> Digest, s: Tree, r: Tree, d: Path)
    requires WellFormed(s) && WellFormed(r) && KindsAgree(s, r)
    ensures var m := Mirror(hash, s, r, d, ChildNames(s, d));
      && RemoveStale(m, s, d) == Backed(hash, s, r, d)
      && forall rel :: (rel != [] && d + rel in m && d + rel !in s) <==> rel in Stale(s, r, d)
  {
    var m := Mirror(hash, s, r, d, ChildNames(s, d));
    var b := Backed(hash, s, r, d);
    forall q | q in s.Keys + r.Keys
      ensures (q in RemoveStale(m, s, d) <==> q in b) && (q in b ==> RemoveStale(m, s, d)[q] == b[q])
    {
      if Below(q, d) {
        if q in s {
          ChildOnPath(s, q, d);
        } else {
          ChildOnPath(r, q, d);
        }
        if !Covered(q, d, ChildNames(s, d)) {
          assert q !in s;
        }
      }
    }
    assert RemoveStale(m, s, d) == b;
    forall rel
      ensures (rel != [] && d + rel in m && d + rel !in s) <==> rel in Stale(s, r, d)
    {
      if rel != [] {
        var p := d + rel;
        assert Below(p, d) && p[|d|] == rel[0];
        if d + [rel[0]] in s {
          assert Covered(p, d, ChildNames(s, d));
        } else if p in s {
          ChildOnPath(s, p, d);
        }
      }
    }
  }

  /** Classification and staleness below p only look at the replica below p. */
  lemma AgreeBelowReports(hash: seq<byte> -> Digest, s: Tree, t: Tree, r: Tree, p: Path)
    requires KindsAgree(s, t) && KindsAgree(s, r) && AgreeBelow(t, r, p)
    ensures forall q :: Below(q, p) && IsFile(s, q) ==> Classify(hash, s, t, q) == Classify(hash, s, r, q)
    ensures forall e :: Within(e, p) ==> Stale(s, t, e) == Stale(s, r, e)
  {
    forall e | Within(e, p)
      ensures Stale(s, t, e) == Stale(s, r, e)
    {
      forall rel | rel != []
        ensures e + rel in t <==> e + rel in r
      {
        assert Below(e + rel, e);
        BelowTrans(e + rel, e, p);
      }
    }
  }

  // ---------------------------------------------------------------------
  // What a whole pass achieves.

  /** Coverage of a pass over d reaches exactly the entries below d. */
  lemma BackedCovers(hash: seq<byte> -> Digest, s: Tree, r: Tree, d: Path, q: Path)
    requires WellFormed(s) && WellFormed(r) && KindsAgree(s, r)
    requires q in s || q in r
    ensures Covered(q, d, ChildNames(s, d) + ChildNames(r, d)) <==> Below(q, d)
  {
    if Below(q, d) {
      if q in s {
        ChildOnPath(s, q, d);
      } else {
        ChildOnPath(r, q, d);
      }
    }
  }

  /** Convergence: after a pass over d the replica has, below d, exactly the
      source's paths, each of the source's kind, and every file there has the
      source file's digest; nothing outside d has changed. */
  lemma Converges(hash: seq<byte> -> Digest, s: Tree, r: Tree, d: Path)
    requires WellFormed(s) && WellFormed(r) && KindsAgree(s, r)
    ensures var b := Backed(hash, s, r, d);
      && (forall p :: Below(p, d) ==> (p in b <==> p in s))
      && (forall p :: Below(p, d) && p in s ==> b[p].Dir? == s[p].Dir?)
      && (forall p :: Below(p, d) && IsFile(s, p) ==> hash(b[p].content) == hash(s[p].content))
      && (forall p :: !Below(p, d) ==> (p in b <==> p in r) && (p in r ==> b[p] == r[p]))
  {
    forall p | p in s || p in r {
      BackedCovers(hash, s, r, d, p);
    }
  }

  /** With a digest that tells different contents apart, the replica below d
      is an exact copy of the source below d. */
  lemma ConvergesExactly(hash: seq<byte> -> Digest, s: Tree, r: Tree, d: Path)
    requires WellFormed(s) && WellFormed(r) && KindsAgree(s, r)
    requires forall a, b :: hash(a) == hash(b) ==> a == b
    ensures forall p :: Below(p, d) ==> (p in Backed(hash, s, r, d) <==> p in s)
    ensures forall p :: Below(p, d) && p in s ==> Backed(hash, s, r, d)[p] == s[p]
  {
    Converges(hash, s, r, d);
  }

  /** The outcome of each source entry below d: a file missing from the
      replica or with a different digest ends up a copy of the source file,
      a file with the same digest is left as it was, a directory ends up a
      directory. */
  lemma SettlesEachEntry(hash: seq<byte> -> Digest, s: Tree, r: Tree, d: Path, p: Path)
    requires WellFormed(s) && WellFormed(r) && KindsAgree(s, r)
    requires Below(p, d) && p in s
    ensures p in Backed(hash, s, r, d)
    ensures s[p].Dir? ==> Backed(hash, s, r, d)[p] == Dir
    ensures s[p].File? && Classify(hash, s, r, p) != Unchanged ==> Backed(hash, s, r, d)[p] == s[p]
    ensures s[p].File? && Classify(hash, s, r, p) == Unchanged ==> Backed(hash, s, r, d)[p] == r[p]
  {
    BackedCovers(hash, s, r, d, p);
  }

  /** A second pass over d right after the first changes nothing. */
  lemma Idempotent(hash: seq<byte> -> Digest, s: Tree, r: Tree, d: Path)
    requires WellFormed(s) && WellFormed(r) && KindsAgree(s, r) && IsDir(r, d)
    ensures KindsAgree(s, Backed(hash, s, r, d))
    ensures Backed(hash, s, Backed(hash, s, r, d), d) == Backed(hash, s, r, d)
  {
    var b := Backed(hash, s, r, d);
    MirrorValid(hash, s, r, d, ChildNames(s, d) + ChildNames(r, d));
    var b2 := Backed(hash, s, b, d);
    forall q ensures (q in b2 <==> q in b) && (q in b ==> b2[q] == b[q]) {
      IdempotentAt(hash, s, r, d, q);
    }
    assert b2.Keys == b.Keys;
  }

  /** Idempotent at one path q. */
  lemma IdempotentAt(hash: seq<byte> -> Digest, s: Tree, r: Tree, d: Path, q: Path)
    requires WellFormed(s) && WellFormed(r) && KindsAgree(s, r)
    requires var b := Backed(hash, s, r, d); WellFormed(b) && KindsAgree(s, b)
    ensures var b := Backed(hash, s, r, d);
      var b2 := Backed(hash, s, b, d);
      (q in b2 <==> q in b) && (q in b ==> b2[q] == b[q])
  {
    var b := Backed(hash, s, r, d);
    if q in s || q in b {
      BackedCovers(hash, s, b, d, q);
      if Below(q, d) {
        if q in r || q in s {
          BackedCovers(hash, s, r, d, q);
        }
      } else if q in b {
        BackedCovers(hash, s, r, d, q);
      }
    }
  }

  /** After a pass over the whole tree, a second pass with the source
      unchanged finds every source file unchanged and nothing stale in any
      directory. */
  lemma SecondPassQuiet(hash: seq<byte> -> Digest, s: Tree, r: Tree)
    requires WellFormed(s) && WellFormed(r) && KindsAgree(s, r)
    ensures KindsAgree(s, Backed(hash, s, r, []))
    ensures forall p :: IsFile(s, p) ==> Classify(hash, s, Backed(hash, s, r, []), p) == Unchanged
    ensures forall e :: Stale(s, Backed(hash, s, r, []), e) == {}
  {
    var b := Backed(hash, s, r, []);
    MirrorValid(hash, s, r, [], ChildNames(s, []) + ChildNames(r, []));
    Converges(hash, s, r, []);
    forall p | p in s || p in b ensures Below(p, []) {
      if p in s { Entry(s, p); } else { Entry(b, p); }
      assert p[..0] == [];
    }
    forall e, rel | rel in Stale(s, b, e) ensures false {
      var p := e + rel;
      assert p in b && Below(p, []) by { assert p[..0] == []; }
      assert Below(p, e) && p[|e|] == rel[0];
      if p != e + [rel[0]] {
        ChildOnPath(s, p, e);
      }
    }
  }

  /** Every stale replica entry below d is reported by exactly one deletion
      pass: the one over its deepest ancestor directory that the source has. */
  lemma StaleReportedOnce(s: Tree, r: Tree, d: Path, p: Path)
    requires WellFormed(s) && WellFormed(r) && KindsAgree(s, r) && IsDir(s, d)
    requires Below(p, d) && p in r && p !in s
    ensures exists e :: Within(e, d) && IsDir(s, e) && Below(p, e) && p[|e|..] in Stale(s, r, e)
    ensures forall e1, e2 ::
      Within(e1, d) && IsDir(s, e1) && Below(p, e1) && p[|e1|..] in Stale(s, r, e1) &&
      Within(e2, d) && IsDir(s, e2) && Below(p, e2) && p[|e2|..] in Stale(s, r, e2)
      ==> e1 == e2
  {
    var e := DeepestSourceAncestor(s, r, d, p);
    assert p == e + p[|e|..];
    assert p[|e|..][0] == p[|e|];
    forall e1, e2 |
      Within(e1, d) && IsDir(s, e1) && Below(p, e1) && p[|e1|..] in Stale(s, r, e1) &&
      Within(e2, d) && IsDir(s, e2) && Below(p, e2) && p[|e2|..] in Stale(s, r, e2)
      ensures e1 == e2
    {
      if |e1| < |e2| {
        StaleExcludesDeeper(s, p, e1, e2);
      } else if |e2| < |e1| {
        StaleExcludesDeeper(s, p, e2, e1);
      } else {
        assert e1 == p[..|e1|] == e2;
      }
    }
  }

  /** If a deeper source directory e2 lies on the way to p, the deletion pass
      over a shallower e1 does not report p. */
  lemma StaleExcludesDeeper(s: Tree, p: Path, e1: Path, e2: Path)
    requires WellFormed(s) && IsDir(s, e2)
    requires Below(p, e1) && Below(p, e2) && |e1| < |e2|
    ensures e1 + [p[|e1|]] in s
  {
    var c := e1 + [p[|e1|]];
    assert e2 != [] && e2 in s;
    assert e1 == p[..|e1|] && e2 == p[..|e2|];
    assert c == p[..|e1| + 1] == e2[..|e1| + 1];
    if |c| < |e2| {
      assert Below(e2, c);
      AncestorIsDir(s, e2, c);
    }
  }

  /** The deepest source directory within d on the way down to p. */
  ghost function DeepestSourceAncestor(s: Tree, r: Tree, d: Path, p: Path): (e: Path)
    requires WellFormed(s) && WellFormed(r) && KindsAgree(s, r)
    requires IsDir(s, d) && Below(p, d) && p in r && p !in s
    ensures Within(e, d) && IsDir(s, e) && Below(p, e) && e + [p[|e|]] !in s
    decreases |p| - |d|
  {
    var c := d + [p[|d|]];
    assert p[..|c|] == c;
    if c !in s then d
    else
      assert p != c;
      AncestorIsDir(r, p, c);
      var e := DeepestSourceAncestor(s, r, c, p);
      assert e[..|d|] == c[..|d|];
      e
  }
}
