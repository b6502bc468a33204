/** The log file_backup writes. Each element of a log is the text of one
    log_file.write call. A pass is explained by a trace of actions: one line
    per source file, and one deletion block per directory the pass visits;
    Render turns a trace into the text written. */
module Report {
  import opened Files
  import opened Digest
  import opened Listing
  import opened Reconcile

  datatype Action =
    | FileLine(path: Path, status: Status)
    | Deletions(dir: Path, deleted: seq<Path>)

  /** The text after the entry name in a file's log line; each status has a
      one-line text of its own. */
  function StatusText(st: Status): (text: string)
    ensures |text| > 1 && text[0] == ' ' && text[|text| - 1] == '\n'
    ensures '\n' !in text[..|text| - 1]
  {
    match st
    case New => " is a new backed up file.\n"
    case Updated => " is an updated file and backed up.\n"
    case Unchanged => " has NOT been updated since last backup.\n"
  }

  /** A file's log line tells the three outcomes apart. */
  lemma StatusTextDistinct(a: Status, b: Status)
    ensures StatusText(a) == StatusText(b) <==> a == b
  {
    if a != b {
      var ta, tb := StatusText(a), StatusText(b);
      assert ta[1..4] != tb[1..4] || |ta| != |tb|;
    }
  }

  /** The bare entry name a file line starts with (not its relative path). */
  function EntryName(p: Path): string
  {
    if p == [] then "" else p[|p| - 1]
  }

  /** os.path.join(a, b) for an entry name b, which never starts with the separator. */
  function Join(a: string, b: Name): string
  {
    if a == [] || a[|a| - 1] == '/' then a + b else a + "/" + b
  }

  /** The joined string keeps a in front and b at the end, with exactly one
      separator between them unless a is empty. */
  lemma JoinSeparates(a: string, b: Name)
    ensures var j := Join(a, b);
      && |a| + |b| <= |j| <= |a| + 1 + |b|
      && j[..|a|] == a && j[|j| - |b|..] == b
      && (a != [] ==> j[|j| - |b| - 1] == '/')
  {
  }

  /** The folder string of directory d when the walk starts at root. */
  function Folder(root: string, d: Path): (f: string)
    ensures |root| <= |f| && f[..|root|] == root
    ensures d != [] ==> |d[|d| - 1]| <= |f| && f[|f| - |d[|d| - 1]|..] == d[|d| - 1]
  {
    if d == [] then root
    else
      JoinSeparates(Folder(root, d[..|d| - 1]), d[|d| - 1]);
      Join(Folder(root, d[..|d| - 1]), d[|d| - 1])
  }

  /** A path below a folder as the deletion block prints it: the text after
      the folder's own path string, which keeps the leading separator. */
  function RelString(rel: Path): string
  {
    if rel == [] then "" else "/" + rel[0] + RelString(rel[1..])
  }

  /** The fixed text before the folder string in a deletion block's header. */
  const HeaderLead := "\nFiles Deleted since last backup in folder "

  /** The header opens with a blank line, ends its own line, and names the
      folder: the folder string reads back from between the fixed texts. */
  function Header(root: string, d: Path): (h: string)
    ensures |HeaderLead| + 3 <= |h| && h[0] == '\n' && h[|h| - 1] == '\n'
    ensures h[|HeaderLead|..|h| - 3] == Folder(root, d)
  {
    assert HeaderLead[0] == '\n';
    HeaderLead + Folder(root, d) + ": \n"
  }

  /** The line that reports one deleted path. */
  function DeletionLine(rel: Path): string
  {
    RelString(rel) + "\n"
  }

  /** One line per deleted path, in the order of deletion. */
  function DeletionLines(deleted: seq<Path>): (lines: seq<string>)
    ensures |lines| == |deleted|
    ensures forall i :: 0 <= i < |deleted| ==> lines[i] == DeletionLine(deleted[i])
  {
    if deleted == [] then [] else DeletionLines(deleted[..|deleted| - 1]) + [DeletionLine(deleted[|deleted| - 1])]
  }

  /** A deletion line never reads as the "None" marker. */
  lemma DeletionLineNotNone(rel: Path)
    ensures DeletionLine(rel) != "None\n\n"
  {
    if rel != [] {
      assert DeletionLine(rel)[0] == '/';
    } else {
      assert DeletionLine(rel) == "\n";
    }
  }

  /** The deletion block of the pass over d: a header naming the folder,
      then "None" when nothing was deleted, and otherwise one line per
      deleted path. */
  function DeletionBlock(root: string, d: Path, deleted: seq<Path>): (lines: seq<string>)
    ensures |lines| == 1 + (if deleted == [] then 1 else |deleted|)
    ensures lines[0] == Header(root, d)
  {
    [Header(root, d)] + (if deleted == [] then ["None\n\n"] else DeletionLines(deleted))
  }

  /** Reading a deletion block back: "None" appears after the header exactly
      when nothing was deleted, and otherwise each line after the header
      reads back as the path deleted at that position. */
  lemma ReadDeletionBlock(root: string, d: Path, deleted: seq<Path>)
    ensures var lines := DeletionBlock(root, d, deleted);
      && ("None\n\n" in lines[1..] <==> deleted == [])
      && forall i :: 0 <= i < |deleted| ==> PathOf(lines[i + 1]) == deleted[i]
  {
    var lines := DeletionBlock(root, d, deleted);
    forall i | 0 <= i < |deleted| ensures lines[i + 1] != "None\n\n" && PathOf(lines[i + 1]) == deleted[i] {
      assert lines[i + 1] == DeletionLine(deleted[i]);
      DeletionLineNotNone(deleted[i]);
      ReadDeletionLine(deleted[i]);
    }
    if deleted == [] {
      assert lines[1..] == ["None\n\n"];
    }
  }

  /** The lines of one action. */
  function Lines(root: string, a: Action): seq<string>
  {
    match a
    case FileLine(p, st) => [EntryName(p) + StatusText(st)]
    case Deletions(e, deleted) => DeletionBlock(root, e, deleted)
  }

  /** The text a trace writes to the log, action after action. */
  function Render(root: string, trace: seq<Action>): seq<string>
  {
    if trace == [] then [] else Render(root, trace[..|trace| - 1]) + Lines(root, trace[|trace| - 1])
  }

  /** Appending one action appends its lines. */
  lemma RenderSnoc(root: string, t: seq<Action>, x: Action)
    ensures Render(root, t + [x]) == Render(root, t) + Lines(root, x)
  {
    assert (t + [x])[..|t|] == t;
  }

  /** Text appended in two steps is the two pieces appended at once. */
  lemma AppendTwice<T>(log: seq<T>, a: seq<T>, b: seq<T>)
    ensures (log + a) + b == log + (a + b)
  {
    assert |(log + a) + b| == |log + (a + b)|;
  }

  lemma {:induction false} RenderConcat(root: string, a: seq<Action>, b: seq<Action>)
    ensures Render(root, a + b) == Render(root, a) + Render(root, b)
    decreases |b|
  {
    if b == [] {
      assert a + b == a;
    } else {
      var b' := b[..|b| - 1];
      var x := b[|b| - 1];
      assert a + b == (a + b') + [x];
      assert b == b' + [x];
      calc {
        Render(root, a + b);
        { RenderSnoc(root, a + b', x); }
        Render(root, a + b') + Lines(root, x);
        { RenderConcat(root, a, b'); }
        (Render(root, a) + Render(root, b')) + Lines(root, x);
        { AppendTwice(Render(root, a), Render(root, b'), Lines(root, x)); }
        Render(root, a) + (Render(root, b') + Lines(root, x));
        { RenderSnoc(root, b', x); }
        Render(root, a) + Render(root, b);
      }
    }
  }

  // ---------------------------------------------------------------------
  // What a trace says about a pass.

  /** The entry an action is about: the file of a line, the folder of a block. */
  function Subject(a: Action): Path
  {
    match a
    case FileLine(p, _) => p
    case Deletions(e, _) => e
  }

  function Subjects(trace: seq<Action>): (ps: seq<Path>)
    ensures |ps| == |trace|
    ensures forall i :: 0 <= i < |trace| ==> ps[i] == Subject(trace[i])
  {
    if trace == [] then [] else Subjects(trace[..|trace| - 1]) + [Subject(trace[|trace| - 1])]
  }

  /** An action tells the truth about source s and the replica r as it was
      when the pass began: a file line carries the status Classify gives the
      file, and a deletion block lists each stale path of its folder once. */
  ghost predicate Accurate(hash: seq<byte> -> Digest, s: Tree, r: Tree, a: Action)
  {
    match a
    case FileLine(p, st) =>
      IsFile(s, p) && (p in r ==> r[p].File?) && st == Classify(hash, s, r, p)
    case Deletions(e, deleted) =>
      IsDir(s, e) && Distinct(deleted) && forall rel :: rel in deleted <==> rel in Stale(s, r, e)
  }

  /** The actions k..j are exactly those about entries within the folder of
      block j. */
  ghost predicate RunOf(trace: seq<Action>, k: int, j: int)
    requires 0 <= j < |trace| && trace[j].Deletions?
  {
    0 <= k <= j && forall i :: 0 <= i < |trace| ==> (k <= i <= j <==> Within(Subject(trace[i]), trace[j].dir))
  }

  /** Depth-first order: the actions about a folder's entries form one
      unbroken run that ends with the folder's own deletion block. */
  ghost predicate Grouped(trace: seq<Action>)
  {
    forall j :: 0 <= j < |trace| && trace[j].Deletions? ==> exists k :: RunOf(trace, k, j)
  }

  /** The trace of the pass that has so far handled the children of d named
      in done: one accurate action for each source entry below those children. */
  ghost predicate Covers(hash: seq<byte> -> Digest, s: Tree, r: Tree, d: Path, done: set<Name>, trace: seq<Action>)
  {
    && Distinct(Subjects(trace))
    && (forall p :: p in Subjects(trace) <==> p in s && Covered(p, d, done))
    && (forall i :: 0 <= i < |trace| ==> Accurate(hash, s, r, trace[i]))
    && Grouped(trace)
  }

  /** The trace of a whole pass over d: one accurate line for every source
      file below d, one accurate deletion block for d and for every source
      directory below it, nothing else, in depth-first order, with the
      block of d last. */
  ghost predicate Reports(hash: seq<byte> -> Digest, s: Tree, r: Tree, d: Path, trace: seq<Action>)
  {
    && trace != [] && trace[|trace| - 1].Deletions? && trace[|trace| - 1].dir == d
    && Distinct(Subjects(trace))
    && (forall p :: p in Subjects(trace) <==> p == d || (p in s && Below(p, d)))
    && (forall i :: 0 <= i < |trace| ==> Accurate(hash, s, r, trace[i]))
    && Grouped(trace)
  }

  lemma SubjectsConcat(a: seq<Action>, b: seq<Action>)
    ensures Subjects(a + b) == Subjects(a) + Subjects(b)
  {
  }

  /** Two runs about unrelated entries can follow each other. */
  lemma GroupedConcat(a: seq<Action>, b: seq<Action>)
    requires Grouped(a) && Grouped(b)
    requires forall x, y :: x in Subjects(a) && y in Subjects(b) ==> !Within(x, y) && !Within(y, x)
    ensures Grouped(a + b)
  {
    var t := a + b;
    forall j | 0 <= j < |t| && t[j].Deletions? ensures exists k :: RunOf(t, k, j) {
      if j < |a| {
        assert a[j] == t[j];
        var k :| RunOf(a, k, j);
        forall i | 0 <= i < |t| ensures k <= i <= j <==> Within(Subject(t[i]), t[j].dir) {
          if i >= |a| {
            assert Subject(t[i]) == Subjects(b)[i - |a|] && t[j].dir == Subjects(a)[j];
          } else {
            assert t[i] == a[i];
          }
        }
        assert RunOf(t, k, j);
      } else {
        var j' := j - |a|;
        assert b[j'] == t[j];
        var k :| RunOf(b, k, j');
        forall i | 0 <= i < |t| ensures |a| + k <= i <= j <==> Within(Subject(t[i]), t[j].dir) {
          if i < |a| {
            assert Subject(t[i]) == Subjects(a)[i] && t[j].dir == Subjects(b)[j'];
          } else {
            assert t[i] == b[i - |a|];
          }
        }
        assert RunOf(t, |a| + k, j);
      }
    }
  }

  /** Closing a folder's run with its deletion block keeps the order. */
  lemma GroupedClose(a: seq<Action>, d: Path, deleted: seq<Path>)
    requires Grouped(a)
    requires forall x :: x in Subjects(a) ==> Below(x, d)
    ensures Grouped(a + [Deletions(d, deleted)])
  {
    var t := a + [Deletions(d, deleted)];
    forall j | 0 <= j < |t| && t[j].Deletions? ensures exists k :: RunOf(t, k, j) {
      if j < |a| {
        assert a[j] == t[j];
        var k :| RunOf(a, k, j);
        assert Subjects(a)[j] == t[j].dir && Subjects(a)[j] in Subjects(a);
        forall i | 0 <= i < |t| ensures k <= i <= j <==> Within(Subject(t[i]), t[j].dir) {
          if i < |a| {
            assert t[i] == a[i];
          }
        }
        assert RunOf(t, k, j);
      } else {
        forall i | 0 <= i < |t| ensures 0 <= i <= j <==> Within(Subject(t[i]), t[j].dir) {
          if i < |a| {
            assert Subject(t[i]) == Subjects(a)[i] && Subjects(a)[i] in Subjects(a);
          } else {
            assert d[..|d|] == d;
          }
        }
        assert RunOf(t, 0, j);
      }
    }
  }

  /** The pass has handled nothing yet. */
  lemma CoversNothing(hash: seq<byte> -> Digest, s: Tree, r: Tree, d: Path)
    ensures Covers(hash, s, r, d, {}, [])
  {
  }

  /** Handling the source file d + [n] adds its line. */
  lemma CoversFileStep(hash: seq<byte> -> Digest, s: Tree, r: Tree, d: Path, done: set<Name>, trace: seq<Action>, n: Name)
    requires WellFormed(s) && KindsAgree(s, r)
    requires Covers(hash, s, r, d, done, trace)
    requires IsFile(s, d + [n]) && n !in done
    ensures Covers(hash, s, r, d, done + {n}, trace + [FileLine(d + [n], Classify(hash, s, r, d + [n]))])
  {
    var c := d + [n];
    var a := FileLine(c, Classify(hash, s, r, c));
    SubjectsConcat(trace, [a]);
    FileJoin(s, d, done, n, Subjects(trace));
    DistinctConcat(Subjects(trace), [c]);
    GroupedConcat(trace, [a]);
  }

  /** The source paths covered once the file d + [n] is handled too are
      those covered before and the file itself. */
  lemma FileJoin(s: Tree, d: Path, done: set<Name>, n: Name, xs: seq<Path>)
    requires WellFormed(s) && IsFile(s, d + [n])
    requires forall p :: p in xs <==> p in s && Covered(p, d, done)
    ensures forall p :: p in xs + [d + [n]] <==> p in s && Covered(p, d, done + {n})
  {
    var c := d + [n];
    assert c[..|d|] == d;
    forall p ensures p in xs + [c] <==> p in s && Covered(p, d, done + {n}) {
      WithinChild(p, d, n);
      if p in s && Covered(p, d, done + {n}) && p !in xs {
        assert Within(p, c);
        if p != c {
          NothingBelowFile(s, p, c);
        }
      }
    }
  }

  /** Handling the source directory d + [n] adds the trace of the pass over
      it. That pass began on replica t, which agrees with r below d + [n],
      so its actions are accurate about r too. */
  lemma CoversDirStep(hash: seq<byte> -> Digest, s: Tree, r: Tree, t: Tree, d: Path, done: set<Name>,
                      trace: seq<Action>, n: Name, sub: seq<Action>)
    requires KindsAgree(s, r) && KindsAgree(s, t) && AgreeBelow(t, r, d + [n])
    requires Covers(hash, s, r, d, done, trace)
    requires IsDir(s, d + [n]) && n !in done
    requires Reports(hash, s, t, d + [n], sub)
    ensures Covers(hash, s, r, d, done + {n}, trace + sub)
  {
    SubjectsConcat(trace, sub);
    SubReportAccurate(hash, s, r, t, d + [n], sub);
    AccurateConcat(hash, s, r, trace, sub);
    SubjectsApart(s, d, done, n, Subjects(trace), Subjects(sub));
    SubjectsJoin(s, d, done, n, Subjects(trace), Subjects(sub));
    DistinctConcat(Subjects(trace), Subjects(sub));
    GroupedConcat(trace, sub);
  }

  lemma AccurateConcat(hash: seq<byte> -> Digest, s: Tree, r: Tree, a: seq<Action>, b: seq<Action>)
    requires forall i :: 0 <= i < |a| ==> Accurate(hash, s, r, a[i])
    requires forall i :: 0 <= i < |b| ==> Accurate(hash, s, r, b[i])
    ensures forall i :: 0 <= i < |a + b| ==> Accurate(hash, s, r, (a + b)[i])
  {
    forall i | 0 <= i < |a + b| ensures Accurate(hash, s, r, (a + b)[i]) {
      if i >= |a| {
        assert (a + b)[i] == b[i - |a|];
      } else {
        assert (a + b)[i] == a[i];
      }
    }
  }

  /** The entries under the handled children, together with the report of
      the pass over d + [n], are the entries under the children done + {n}. */
  lemma SubjectsJoin(s: Tree, d: Path, done: set<Name>, n: Name, xs: seq<Path>, ys: seq<Path>)
    requires IsDir(s, d + [n])
    requires forall p :: p in xs <==> p in s && Covered(p, d, done)
    requires forall p :: p in ys <==> p == d + [n] || (p in s && Below(p, d + [n]))
    ensures forall p :: p in xs + ys <==> p in s && Covered(p, d, done + {n})
  {
    forall p ensures p in xs + ys <==> p in s && Covered(p, d, done + {n}) {
      WithinChild(p, d, n);
    }
  }

  /** The report of the pass over c, begun on a replica that agrees with r
      below c, is accurate about r as well. */
  lemma SubReportAccurate(hash: seq<byte> -> Digest, s: Tree, r: Tree, t: Tree, c: Path, sub: seq<Action>)
    requires KindsAgree(s, r) && KindsAgree(s, t) && AgreeBelow(t, r, c)
    requires Reports(hash, s, t, c, sub)
    ensures forall i :: 0 <= i < |sub| ==> Accurate(hash, s, r, sub[i])
  {
    var last := |sub| - 1;
    forall i | 0 <= i < |sub| ensures Accurate(hash, s, r, sub[i]) {
      assert Subjects(sub)[i] in Subjects(sub);
      if sub[i].FileLine? {
        assert i != last && Subjects(sub)[last] == c;
      }
      AccurateElsewhere(hash, s, r, t, c, sub[i]);
    }
  }

  /** An action about an entry strictly below c, or a block of a folder
      within c, is accurate about r if it is accurate about a replica t
      that agrees with r below c. */
  lemma AccurateElsewhere(hash: seq<byte> -> Digest, s: Tree, r: Tree, t: Tree, c: Path, a: Action)
    requires KindsAgree(s, r) && KindsAgree(s, t) && AgreeBelow(t, r, c)
    requires Accurate(hash, s, t, a)
    requires a.FileLine? ==> Below(a.path, c)
    requires a.Deletions? ==> Within(a.dir, c)
    ensures Accurate(hash, s, r, a)
  {
    AgreeBelowReports(hash, s, t, r, c);
  }

  /** Entries under handled children and entries under a new child n are
      never within one another. */
  lemma SubjectsApart(s: Tree, d: Path, done: set<Name>, n: Name, xs: seq<Path>, ys: seq<Path>)
    requires n !in done
    requires forall x :: x in xs ==> Covered(x, d, done)
    requires forall y :: y in ys ==> y == d + [n] || Below(y, d + [n])
    ensures forall x, y :: x in xs && y in ys ==> !Within(x, y) && !Within(y, x) && x != y
  {
    forall x, y | x in xs && y in ys ensures !Within(x, y) && !Within(y, x) && x != y {
      WithinChild(y, d, n);
    }
  }

  /** Once every child of d is handled, d's deletion block completes the report. */
  lemma CoversClose(hash: seq<byte> -> Digest, s: Tree, r: Tree, d: Path, trace: seq<Action>, deleted: seq<Path>)
    requires WellFormed(s) && IsDir(s, d)
    requires Covers(hash, s, r, d, ChildNames(s, d), trace)
    requires Distinct(deleted) && forall rel :: rel in deleted <==> rel in Stale(s, r, d)
    ensures Reports(hash, s, r, d, trace + [Deletions(d, deleted)])
  {
    var t := trace + [Deletions(d, deleted)];
    assert Subjects(t) == Subjects(trace) + [d];
    forall p | p in s && Below(p, d) ensures Covered(p, d, ChildNames(s, d)) {
      ChildOnPath(s, p, d);
    }
    forall x | x in Subjects(trace) ensures Below(x, d) {
    }
    DistinctConcat(Subjects(trace), [d]);
    GroupedClose(trace, d, deleted);
    forall i | 0 <= i < |t| ensures Accurate(hash, s, r, t[i]) {
      if i < |trace| {
        assert t[i] == trace[i];
      }
    }
  }

  // ---------------------------------------------------------------------
  // What the report of a whole pass says.

  /** Each source file below d has exactly one line in the report of the
      pass over d, and the line carries the file's status. */
  lemma OneLinePerFile(hash: seq<byte> -> Digest, s: Tree, r: Tree, d: Path, trace: seq<Action>, p: Path)
    requires KindsAgree(s, r) && Reports(hash, s, r, d, trace)
    requires IsFile(s, p) && Below(p, d)
    ensures exists i :: 0 <= i < |trace| && trace[i] == FileLine(p, Classify(hash, s, r, p))
    ensures forall i, j :: 0 <= i < |trace| && 0 <= j < |trace| && Subject(trace[i]) == p && Subject(trace[j]) == p ==> i == j
  {
    var ps := Subjects(trace);
    assert p in ps;
    var i :| 0 <= i < |ps| && ps[i] == p;
    assert Accurate(hash, s, r, trace[i]);
    forall i, j | 0 <= i < |trace| && 0 <= j < |trace| && Subject(trace[i]) == p && Subject(trace[j]) == p
      ensures i == j
    {
      assert ps[i] == ps[j];
    }
  }

  /** A deletion block in the report of the pass over d belongs to d or to
      a source directory below it, and lists exactly that folder's stale paths. */
  lemma BlockInReport(hash: seq<byte> -> Digest, s: Tree, r: Tree, d: Path, trace: seq<Action>, i: int)
    requires Reports(hash, s, r, d, trace)
    requires 0 <= i < |trace| && trace[i].Deletions?
    ensures Within(trace[i].dir, d) && IsDir(s, trace[i].dir)
    ensures forall rel :: rel in trace[i].deleted <==> rel in Stale(s, r, trace[i].dir)
  {
    var ps := Subjects(trace);
    assert ps[i] in ps;
    assert Accurate(hash, s, r, trace[i]);
    assert d[..|d|] == d;
  }

  /** Each path the replica holds below d and the source lacks is listed in
      exactly one deletion block of the pass over d: the block of its
      deepest ancestor that the source has. */
  lemma OneBlockPerStalePath(hash: seq<byte> -> Digest, s: Tree, r: Tree, d: Path, trace: seq<Action>, p: Path)
    requires WellFormed(s) && WellFormed(r) && KindsAgree(s, r) && IsDir(s, d)
    requires Reports(hash, s, r, d, trace)
    requires Below(p, d) && p in r && p !in s
    ensures exists i :: 0 <= i < |trace| && trace[i].Deletions? && Below(p, trace[i].dir) && p[|trace[i].dir|..] in trace[i].deleted
    ensures forall i, j ::
      0 <= i < |trace| && trace[i].Deletions? && Below(p, trace[i].dir) && p[|trace[i].dir|..] in trace[i].deleted &&
      0 <= j < |trace| && trace[j].Deletions? && Below(p, trace[j].dir) && p[|trace[j].dir|..] in trace[j].deleted
      ==> i == j
  {
    StaleBlockExists(hash, s, r, d, trace, p);
    forall i, j |
      0 <= i < |trace| && trace[i].Deletions? && Below(p, trace[i].dir) && p[|trace[i].dir|..] in trace[i].deleted &&
      0 <= j < |trace| && trace[j].Deletions? && Below(p, trace[j].dir) && p[|trace[j].dir|..] in trace[j].deleted
      ensures i == j
    {
      BlockInReport(hash, s, r, d, trace, i);
      BlockInReport(hash, s, r, d, trace, j);
      StaleReportedOnce(s, r, d, p);
      assert Subjects(trace)[i] == Subjects(trace)[j];
    }
  }

  lemma StaleBlockExists(hash: seq<byte> -> Digest, s: Tree, r: Tree, d: Path, trace: seq<Action>, p: Path)
    requires WellFormed(s) && WellFormed(r) && KindsAgree(s, r) && IsDir(s, d)
    requires Reports(hash, s, r, d, trace)
    requires Below(p, d) && p in r && p !in s
    ensures exists i :: 0 <= i < |trace| && trace[i].Deletions? && Below(p, trace[i].dir) && p[|trace[i].dir|..] in trace[i].deleted
  {
    var ps := Subjects(trace);
    StaleReportedOnce(s, r, d, p);
    var e :| Within(e, d) && IsDir(s, e) && Below(p, e) && p[|e|..] in Stale(s, r, e);
    assert e in ps by {
      if e != d {
        assert e in s && Below(e, d);
      }
    }
    var i :| 0 <= i < |ps| && ps[i] == e;
    assert Accurate(hash, s, r, trace[i]);
    if trace[i].FileLine? {
      Entry(s, e);
    }
  }

  /** A second pass over an unchanged source reports every file as not
      updated and every deletion block as empty. */
  lemma QuietPass(hash: seq<byte> -> Digest, s: Tree, r: Tree, trace: seq<Action>)
    requires WellFormed(s) && WellFormed(r) && KindsAgree(s, r)
    requires Reports(hash, s, Backed(hash, s, r, []), [], trace)
    ensures forall i :: 0 <= i < |trace| && trace[i].FileLine? ==> trace[i].status == Unchanged
    ensures forall i :: 0 <= i < |trace| && trace[i].Deletions? ==> trace[i].deleted == []
  {
    SecondPassQuiet(hash, s, r);
    forall i | 0 <= i < |trace|
      ensures trace[i].FileLine? ==> trace[i].status == Unchanged
      ensures trace[i].Deletions? ==> trace[i].deleted == []
    {
      assert Accurate(hash, s, Backed(hash, s, r, []), trace[i]);
      if trace[i].Deletions? {
        NoMembers(trace[i].deleted);
      }
    }
  }

  // ---------------------------------------------------------------------
  // Reading a deletion line back.

  /** The longest prefix of text without a separator. */
  function TakeName(text: string): (name: string)
    ensures |name| <= |text| && name == text[..|name|] && '/' !in name
  {
    if text == [] || text[0] == '/' then [] else [text[0]] + TakeName(text[1..])
  }

  /** The names between the separators of a relative path string. */
  function Split(text: string): seq<string>
    decreases |text|
  {
    if text == [] || text[0] != '/' then []
    else
      var name := TakeName(text[1..]);
      [name] + Split(text[1 + |name|..])
  }

  /** The path a deletion line names. */
  function PathOf(line: string): seq<string>
  {
    if line != [] && line[|line| - 1] == '\n' then Split(line[..|line| - 1]) else Split(line)
  }

  lemma {:induction false} TakeNameOf(name: string, rest: string)
    requires '/' !in name && (rest == [] || rest[0] == '/')
    ensures TakeName(name + rest) == name
  {
    if name == [] {
      assert name + rest == rest;
    } else {
      assert (name + rest)[1..] == name[1..] + rest;
      TakeNameOf(name[1..], rest);
    }
  }

  /** Split reads one name off the front of the text. */
  lemma SplitOne(name: string, rest: string)
    requires '/' !in name && (rest == [] || rest[0] == '/')
    ensures Split("/" + name + rest) == [name] + Split(rest)
  {
    var text := "/" + name + rest;
    assert text[1..] == name + rest;
    TakeNameOf(name, rest);
    assert text[1 + |name|..] == rest;
  }

  /** Reading a path string back gives the path it was written for. */
  lemma {:induction false} SplitRelString(rel: Path)
    ensures Split(RelString(rel)) == rel
  {
    if rel != [] {
      var rest := RelString(rel[1..]);
      if rel[1..] != [] {
        assert rest[0] == '/';
      }
      SplitOne(rel[0], rest);
      SplitRelString(rel[1..]);
    }
  }

  /** A deletion line names exactly the path it was written for, so the
      deletion block is an unambiguous record of what was removed. */
  lemma ReadDeletionLine(rel: Path)
    ensures PathOf(DeletionLine(rel)) == rel
  {
    var line := DeletionLine(rel);
    assert line[..|line| - 1] == RelString(rel);
    SplitRelString(rel);
  }
}
