/** file_backup: one pass of the one-way synchroniser. A Synchronizer holds
    the source tree (which the pass only reads), the replica tree (which it
    updates in place) and the log (to which it only appends). */
module Backup {
  import opened Files
  import opened Digest
  import opened Listing
  import opened Reconcile
  import opened Report

  /** The replica t once the paths d + rel for every rel in rels have been
      removed together with everything below them. */
  ghost function Pruned(t: Tree, d: Path, rels: seq<Path>): Tree
  {
    map p | p in t && (forall rel :: rel in rels ==> !Within(p, d + rel)) :: t[p]
  }

  /** One removal of the deletion loop: os.remove of a file, shutil.rmtree
      of a directory, and nothing for a path an earlier rmtree already took
      away all prune the same subtree. */
  lemma PruneStep(t: Tree, d: Path, rels: seq<Path>, rel: Path)
    requires WellFormed(t) && rel != []
    ensures var u := Pruned(t, d, rels);
      && (IsFile(u, d + rel) ==> Remove(u, d + rel) == Pruned(t, d, rels + [rel]))
      && (d + rel in u && u[d + rel].Dir? ==> RemoveTree(u, d + rel) == Pruned(t, d, rels + [rel]))
      && (d + rel !in u ==> u == Pruned(t, d, rels + [rel]))
  {
    var u := Pruned(t, d, rels);
    var u' := Pruned(t, d, rels + [rel]);
    var q := d + rel;
    assert RemoveTree(u, q) == u' by {
      forall p ensures (p in RemoveTree(u, q) <==> p in u') {
        assert (forall x :: x in rels + [rel] ==> !Within(p, d + x))
          <==> (forall x :: x in rels ==> !Within(p, d + x)) && !Within(p, q);
      }
    }
    if IsFile(u, q) {
      forall p | p in u && Within(p, q) ensures p == q {
        if p != q {
          NothingBelowFile(t, p, q);
        }
      }
      assert Remove(u, q) == RemoveTree(u, q);
    }
    if q !in u {
      forall p | p in u ensures !Within(p, q) {
        if Within(p, q) && p != q {
          AncestorIsDir(t, p, q);
          assert false;
        }
      }
      assert u == RemoveTree(u, q);
    }
  }

  /** Removing every path the source lacks, one subtree at a time, leaves
      RemoveStale. */
  lemma PruneAll(t: Tree, s: Tree, d: Path, rels: seq<Path>)
    requires WellFormed(s)
    requires forall rel :: rel in rels <==> rel != [] && d + rel in t && d + rel !in s
    ensures Pruned(t, d, rels) == RemoveStale(t, s, d)
  {
    forall p | p in t
      ensures (forall rel :: rel in rels ==> !Within(p, d + rel)) <==> !(Below(p, d) && p !in s)
    {
      if Below(p, d) && p !in s {
        var rel := p[|d|..];
        assert d + rel == p;
        assert rel in rels;
      }
      if rel :| rel in rels && Within(p, d + rel) {
        assert p[..|d|] == p[..|d + rel|][..|d|];
        if p in s && p != d + rel {
          AncestorIsDir(s, p, d + rel);
        }
      }
    }
  }

  /** The deletion pass keeps a well-formed replica well-formed: whatever it
      removes, it removes with everything below it. */
  lemma RemoveStaleValid(t: Tree, s: Tree, d: Path)
    requires WellFormed(t) && WellFormed(s)
    ensures WellFormed(RemoveStale(t, s, d))
  {
    var u := RemoveStale(t, s, d);
    forall p | p in u && p != [] ensures IsDir(u, Parent(p)) {
      Entry(t, p);
      var q := Parent(p);
      if q != [] {
        if Below(q, d) {
          assert p[..|d|] == q[..|d|];
          if q !in s {
            Entry(s, p);
          }
        }
      }
    }
  }

  /** The next name of a listing without repeats is not among those handled. */
  lemma NextName(names: seq<Name>, i: nat, done: set<Name>)
    requires Distinct(names) && i < |names|
    requires forall n :: n in done <==> n in names[..i]
    ensures names[i] !in done
    ensures forall n :: n in done + {names[i]} <==> n in names[..i + 1]
  {
    assert names[..i + 1] == names[..i] + [names[i]];
    forall k | 0 <= k < i ensures names[k] != names[i] {
    }
  }

  class Synchronizer {
    /** The digest md5_of_file computes: any function of the bytes. */
    const hash: seq<byte> -> Digest
    /** The source folder path as given to file_backup at the top. */
    const sourceRoot: string
    /** The source tree, which the pass never writes. */
    const source: Tree
    var replica: Tree
    /** Every log_file.write so far, one element per call. */
    var log: seq<string>

    ghost predicate Valid()
      reads this
    {
      WellFormed(source) && WellFormed(replica) && KindsAgree(source, replica)
    }

    /** A synchroniser over a source and a replica whose common paths are of
        the same kind, with an empty log. */
    constructor (hash: seq<byte> -> Digest, sourceRoot: string, source: Tree, replica: Tree)
      requires WellFormed(source) && WellFormed(replica) && KindsAgree(source, replica)
      ensures Valid()
      ensures this.hash == hash && this.sourceRoot == sourceRoot
      ensures this.source == source && this.replica == replica && log == []
    {
      this.hash := hash;
      this.sourceRoot := sourceRoot;
      this.source := source;
      this.replica := replica;
      log := [];
    }

    /** The pass over directory d: settle each entry of d, then delete what
        the source lacks. The replica ends as Backed describes, the log grows
        by exactly the text of a trace that Reports describes, and nothing
        else changes. */
    method FileBackup(d: Path) returns (ghost trace: seq<Action>)
      requires Valid() && IsDir(source, d) && IsDir(replica, d)
      modifies this
      ensures Valid()
      ensures replica == Backed(hash, source, old(replica), d)
      ensures log == old(log) + Render(sourceRoot, trace)
      ensures Reports(hash, source, old(replica), d, trace)
      decreases Subtree(source, d), 2, 0
    {
      ghost var r0 := replica;
      trace := SyncEntries(d);
      ghost var synced := log;
      FinishPass(hash, source, r0, d);
      var deleted := DeleteStale(d);
      CoversClose(hash, source, r0, d, trace, deleted);
      ghost var block := Deletions(d, deleted);
      calc {
        old(log) + Render(sourceRoot, trace + [block]);
        { RenderSnoc(sourceRoot, trace, block); }
        old(log) + (Render(sourceRoot, trace) + Lines(sourceRoot, block));
        { AppendTwice(old(log), Render(sourceRoot, trace), Lines(sourceRoot, block)); }
        synced + DeletionBlock(sourceRoot, d, deleted);
      }
      trace := trace + [block];
    }

    /** The first half of the pass over d: each entry os.listdir reports, in
        the order it reports them, is settled (directories recursively). The
        replica then holds what Mirror describes for all children of d, and
        the log has grown by one accurate action per source entry below d. */
    method SyncEntries(d: Path) returns (ghost trace: seq<Action>)
      requires Valid() && IsDir(source, d) && IsDir(replica, d)
      modifies this
      ensures Valid()
      ensures replica == Mirror(hash, source, old(replica), d, ChildNames(source, d))
      ensures log == old(log) + Render(sourceRoot, trace)
      ensures Covers(hash, source, old(replica), d, ChildNames(source, d), trace)
      decreases Subtree(source, d), 1, 0
    {
      ghost var r0 := replica;
      ghost var log0 := log;
      var names := ListDir(source, d);
      ghost var done: set<Name> := {};
      trace := [];
      MirrorNothing(hash, source, r0, d);
      CoversNothing(hash, source, r0, d);
      var i := 0;
      while i < |names|
        invariant 0 <= i <= |names|
        invariant forall n :: n in done <==> n in names[..i]
        invariant Valid() && WellFormed(r0) && KindsAgree(source, r0) && IsDir(replica, d)
        invariant replica == Mirror(hash, source, r0, d, done)
        invariant log == log0 + Render(sourceRoot, trace)
        invariant Covers(hash, source, r0, d, done, trace)
      {
        var n := names[i];
        var p := d + [n];
        NextName(names, i, done);
        ghost var step := SyncEntry(d, n, r0, done, trace);
        RenderConcat(sourceRoot, trace, step);
        AppendTwice(log0, Render(sourceRoot, trace), Render(sourceRoot, step));
        trace := trace + step;
        done := done + {n};
        i := i + 1;
        MirrorValid(hash, source, r0, d, done);
      }
      assert done == ChildNames(source, d);
    }

    /** One entry n of d, as the body of the listing loop handles it: a
        directory is synchronised recursively, a file is compared and
        copied. The trace grows by the actions this writes. */
    method SyncEntry(d: Path, n: Name, ghost r0: Tree, ghost done: set<Name>, ghost trace: seq<Action>)
      returns (ghost step: seq<Action>)
      requires Valid() && WellFormed(r0) && KindsAgree(source, r0) && IsDir(r0, d)
      requires d + [n] in source && n !in done
      requires replica == Mirror(hash, source, r0, d, done)
      requires Covers(hash, source, r0, d, done, trace)
      modifies this
      ensures Valid()
      ensures replica == Mirror(hash, source, r0, d, done + {n})
      ensures log == old(log) + Render(sourceRoot, step)
      ensures Covers(hash, source, r0, d, done + {n}, trace + step)
      decreases Subtree(source, d), 0, 1
    {
      var p := d + [n];
      step := [];
      if p in source && source[p].Dir? {
        step := SyncDirectory(d, n, r0, done, trace);
      }
      if p in source && source[p].File? {
        var line := SyncFile(d, n, r0, done, trace);
        step := [line];
        assert Render(sourceRoot, step) == Lines(sourceRoot, line) by {
          assert step[..0] == [];
        }
      }
    }

    /** A directory entry n of d: create it in the replica if it is missing,
        then run the pass over it. The trace grows by the report of that
        pass, which is accurate about the replica as the pass over d found it. */
    method SyncDirectory(d: Path, n: Name, ghost r0: Tree, ghost done: set<Name>, ghost trace: seq<Action>)
      returns (ghost sub: seq<Action>)
      requires Valid() && WellFormed(r0) && KindsAgree(source, r0) && IsDir(r0, d)
      requires IsDir(source, d + [n]) && n !in done
      requires replica == Mirror(hash, source, r0, d, done)
      requires Covers(hash, source, r0, d, done, trace)
      modifies this
      ensures Valid()
      ensures replica == Mirror(hash, source, r0, d, done + {n})
      ensures log == old(log) + Render(sourceRoot, sub)
      ensures Covers(hash, source, r0, d, done + {n}, trace + sub)
      decreases Subtree(source, d), 0, 0
    {
      var p := d + [n];
      if p !in replica {
        replica := replica[p := Dir];
      }
      SubtreeShrinks(source, d, n);
      MirrorDirStep(hash, source, r0, d, done, n, replica);
      ghost var t := replica;
      sub := FileBackup(p);
      CoversDirStep(hash, source, r0, t, d, done, trace, n, sub);
    }

    /** A file entry n of d, settled as SettleFile does; the replica moves
        from one Mirror to the next and the trace grows by the file's line. */
    method SyncFile(d: Path, n: Name, ghost r0: Tree, ghost done: set<Name>, ghost trace: seq<Action>)
      returns (ghost line: Action)
      requires Valid() && WellFormed(r0) && KindsAgree(source, r0) && IsDir(r0, d)
      requires IsFile(source, d + [n]) && n !in done
      requires replica == Mirror(hash, source, r0, d, done)
      requires Covers(hash, source, r0, d, done, trace)
      modifies this
      ensures Valid()
      ensures line == FileLine(d + [n], Classify(hash, source, r0, d + [n]))
      ensures replica == Mirror(hash, source, r0, d, done + {n})
      ensures log == old(log) + Lines(sourceRoot, line)
      ensures Covers(hash, source, r0, d, done + {n}, trace + [line])
    {
      var p := d + [n];
      MirrorFileStep(hash, source, r0, d, done, n);
      CoversFileStep(hash, source, r0, d, done, trace, n);
      MirrorValid(hash, source, r0, d, done + {n});
      SettledAlike(hash, source, replica, r0, p);
      var status := SettleFile(d, n);
      line := FileLine(p, status);
    }

    /** The source file p = d + [n]: copy it if the replica lacks it, copy
        it over the replica's if their digests differ, and leave it
        otherwise; either way write the line that says which. Only the
        replica's entry at p changes, and it becomes what Settled says. */
    method SettleFile(d: Path, n: Name) returns (status: Status)
      requires IsFile(source, d + [n]) && (d + [n] in replica ==> replica[d + [n]].File?)
      modifies this
      ensures status == Classify(hash, source, old(replica), d + [n])
      ensures replica == old(replica)[d + [n] := Settled(hash, source, old(replica), d + [n])]
      ensures log == old(log) + [n + StatusText(status)]
    {
      var p := d + [n];
      if p !in replica {
        status := New;
        replica := replica[p := source[p]];
        log := log + [n + " is a new backed up file.\n"];
      } else {
        var sourceDigest, replicaDigest;
        ghost var chunks;
        sourceDigest, chunks := Md5OfFile(hash, source[p].content, ChunkSize);
        replicaDigest, chunks := Md5OfFile(hash, replica[p].content, ChunkSize);
        if sourceDigest != replicaDigest {
          status := Updated;
          replica := replica[p := source[p]];
          log := log + [n + " is an updated file and backed up.\n"];
        } else {
          status := Unchanged;
          assert replica == replica[p := old(replica)[p]];
          log := log + [n + " has NOT been updated since last backup.\n"];
        }
      }
    }

    /** The deletion pass over d: list both trees below d, remove from the
        replica every listed path the source lacks (a file with os.remove,
        a directory with shutil.rmtree), then write the deletion block. A
        path whose directory was already removed is still listed as deleted. */
    method DeleteStale(d: Path) returns (deleted: seq<Path>)
      requires Valid()
      modifies this
      ensures Valid()
      ensures replica == RemoveStale(old(replica), source, d)
      ensures Distinct(deleted)
      ensures forall rel :: rel in deleted <==> rel != [] && d + rel in old(replica) && d + rel !in source
      ensures log == old(log) + DeletionBlock(sourceRoot, d, deleted)
    {
      ghost var r0 := replica;
      var sourceFiles := Glob(source, d);
      sourceFiles := sourceFiles[1..];
      var replicaFiles := Glob(replica, d);
      replicaFiles := replicaFiles[1..];
      assert forall rel :: rel in sourceFiles <==> rel != [] && d + rel in source;
      assert forall rel :: rel in replicaFiles <==> rel != [] && d + rel in r0;
      deleted := [];
      var i := 0;
      while i < |replicaFiles|
        invariant 0 <= i <= |replicaFiles|
        invariant Distinct(deleted)
        invariant forall rel :: rel in deleted <==> rel in replicaFiles[..i] && rel !in sourceFiles
        invariant replica == Pruned(r0, d, deleted)
        invariant log == old(log)
      {
        var rel := replicaFiles[i];
        assert replicaFiles[..i + 1] == replicaFiles[..i] + [rel];
        if rel !in sourceFiles {
          assert rel !in deleted by {
            forall k | 0 <= k < i ensures replicaFiles[k] != rel {
            }
          }
          PruneStep(r0, d, deleted, rel);
          deleted := deleted + [rel];
          var path := d + rel;
          if path in replica && replica[path].File? {
            replica := Remove(replica, path);
          } else if path in replica && replica[path].Dir? {
            replica := RemoveTree(replica, path);
          }
        }
        i := i + 1;
      }
      assert replicaFiles[..i] == replicaFiles;
      assert forall rel :: rel in deleted <==> rel != [] && d + rel in r0 && d + rel !in source;
      PruneAll(r0, source, d, deleted);
      RemoveStaleValid(r0, source, d);

      WriteDeletionBlock(d, deleted);
    }

    /** The end of the deletion pass: the header naming the folder, "None"
        when nothing was deleted, then one line per deleted path. */
    method WriteDeletionBlock(d: Path, deleted: seq<Path>)
      modifies this
      ensures replica == old(replica)
      ensures log == old(log) + DeletionBlock(sourceRoot, d, deleted)
    {
      log := log + [Header(sourceRoot, d)];
      if |deleted| == 0 {
        log := log + ["None\n\n"];
      }
      ghost var head := log;
      var j := 0;
      while j < |deleted|
        invariant 0 <= j <= |deleted|
        invariant log == head + DeletionLines(deleted[..j])
        invariant replica == old(replica)
      {
        assert deleted[..j + 1][..j] == deleted[..j];
        log := log + [DeletionLine(deleted[j])];
        j := j + 1;
      }
      assert deleted[..j] == deleted;
      if deleted == [] {
        assert DeletionLines(deleted) == [];
      }
    }
  }
}
