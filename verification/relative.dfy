/** How the deletion pass turns a listed path string into the relative path
    it compares. The code cuts each string glob reports with
    filename.split(folder)[1]; that is the text between the folder and the
    NEXT occurrence of the folder string, which is shorter than the relative
    path whenever the folder string recurs inside it. The intended cut is
    the text after the folder prefix, which is what the structured paths of
    the rest of the model amount to. */
module Relative {
  import opened Files
  import opened Report

  /** sep occurs in text at index k. */
  predicate OccursAt(text: string, sep: string, k: int)
  {
    0 <= k && k + |sep| <= |text| && text[k..k + |sep|] == sep
  }

  /** The first index at or after from where sep occurs in text, or -1. */
  function Find(text: string, sep: string, from: nat): (i: int)
    requires sep != []
    ensures i == -1 || OccursAt(text, sep, i)
    ensures i >= 0 ==> from <= i && forall k :: from <= k < i ==> !OccursAt(text, sep, k)
    ensures i == -1 ==> forall k :: from <= k ==> !OccursAt(text, sep, k)
    decreases |text| - from
  {
    if from + |sep| > |text| then -1
    else if text[from..from + |sep|] == sep then from
    else Find(text, sep, from + 1)
  }

  /** text.split(sep)[1] for a text that starts with sep, as every string
      glob reports starts with the folder it lists: the piece from the end of
      the leading sep up to the next occurrence of sep, or to the end. */
  function SplitSecond(text: string, sep: string): (piece: string)
    requires sep != [] && |sep| <= |text| && text[..|sep|] == sep
    ensures text[..|sep|] + piece <= text
    ensures piece == text[|sep|..] <==> Find(text, sep, |sep|) == -1
  {
    var j := Find(text, sep, |sep|);
    if j < 0 then text[|sep|..] else text[|sep|..j]
  }

  /** The intended cut: everything after the folder prefix. */
  function AfterFolder(text: string, folder: string): (rest: string)
    requires |folder| <= |text| && text[..|folder|] == folder
    ensures folder + rest == text
  {
    text[|folder|..]
  }

  /** The string glob reports for the entry rel below a folder written
      without a trailing separator. */
  function Listed(folder: string, rel: Path): string
  {
    folder + RelString(rel)
  }

  /** With the intended cut, the relative string of a listed entry is its
      relative path written out, whatever the folder string is. */
  lemma AfterFolderListed(folder: string, rel: Path)
    ensures AfterFolder(Listed(folder, rel), folder) == RelString(rel)
  {
    assert Listed(folder, rel)[..|folder|] == folder;
  }

  /** Hence the membership test of the deletion pass compares paths exactly:
      an entry of the replica folder and an entry of the source folder get
      the same relative string if and only if they are the same path. */
  lemma SameRelativeIffSamePath(source: string, replica: string, a: Path, b: Path)
    ensures AfterFolder(Listed(source, a), source) == AfterFolder(Listed(replica, b), replica) <==> a == b
  {
    AfterFolderListed(source, a);
    AfterFolderListed(replica, b);
    if RelString(a) == RelString(b) {
      SplitRelString(a);
      SplitRelString(b);
    }
  }

  /** The search moves past an index whose first character cannot start sep. */
  lemma FindSkips(text: string, sep: string, k: nat)
    requires sep != [] && k + |sep| <= |text| && text[k] != sep[0]
    ensures Find(text, sep, k) == Find(text, sep, k + 1)
  {
    assert text[k..k + |sep|][0] == text[k];
  }

  /** The search stops where sep occurs. */
  lemma FindHits(text: string, sep: string, k: nat)
    requires sep != [] && OccursAt(text, sep, k)
    ensures Find(text, sep, k) == k
  {
  }

  /** The search gives up when sep no longer fits. */
  lemma FindEnds(text: string, sep: string, k: nat)
    requires sep != [] && |text| < k + |sep|
    ensures Find(text, sep, k) == -1
  {
  }

  /** The search finds nothing from k on when the first character of sep
      does not occur there. */
  lemma {:induction false} FindAbsent(text: string, sep: string, k: nat)
    requires sep != [] && k <= |text| && sep[0] !in text[k..]
    ensures Find(text, sep, k) == -1
    decreases |text| - k
  {
    if |text| < k + |sep| {
      FindEnds(text, sep, k);
    } else {
      assert text[k] == text[k..][0];
      assert text[k + 1..] == text[k..][1..];
      FindSkips(text, sep, k);
      FindAbsent(text, sep, k + 1);
    }
  }

  /** The string glob reports for an entry directly in the folder. */
  lemma ListedOne(folder: string, n: Name)
    ensures Listed(folder, [n]) == folder + "/" + n
  {
    assert [n][1..] == [];
    assert RelString([n]) == "/" + n + "";
    assert "/" + n + "" == "/" + n;
  }

  /** An entry directly in folder f whose name begins with f itself: the
      second piece is the lone separator, not the entry's relative path. */
  lemma CutAtRepeat(f: Name, x: string)
    requires '/' !in x
    ensures SplitSecond(f + "/" + (f + x), f) == "/"
  {
    var text := f + "/" + (f + x);
    assert text[..|f|] == f;
    assert text[|f|] == '/' && f[0] != '/';
    FindSkips(text, f, |f|);
    assert text[|f| + 1..|f| + 1 + |f|] == f;
    FindHits(text, f, |f| + 1);
  }

  /** A folder g whose first character never occurs in the relative path:
      the second piece is the whole relative path. */
  lemma CutWhole(g: Name, rel: Path)
    requires g[0] !in RelString(rel)
    ensures SplitSecond(Listed(g, rel), g) == RelString(rel)
  {
    var text := Listed(g, rel);
    assert text[|g|..] == RelString(rel);
    FindAbsent(text, g, |g|);
  }

  /** The source side of the example below. */
  lemma SourceSide()
    ensures SplitSecond(Listed("data", ["data.csv"]), "data") == "/"
    ensures AfterFolder(Listed("data", ["data.csv"]), "data") == "/data.csv"
  {
    ListedOne("data", "data.csv");
    CutAtRepeat("data", ".csv");
    assert "data" + ".csv" == "data.csv";
    AfterFolderListed("data", ["data.csv"]);
  }

  /** The replica side of the example below. */
  lemma ReplicaSide()
    ensures SplitSecond(Listed("bak", ["data.csv"]), "bak") == "/data.csv"
    ensures AfterFolder(Listed("bak", ["data.csv"]), "bak") == "/data.csv"
  {
    CutWhole("bak", ["data.csv"]);
    AfterFolderListed("bak", ["data.csv"]);
  }

  /** The cut as written goes wrong when the folder string recurs: with
      source folder "data" and replica folder "bak", the file data.csv
      present in both gets "/" on the source side and "/data.csv" on the
      replica side, so the deletion pass takes the replica's copy for a file
      the source lacks and removes it: once the folders themselves are
      dropped, the source list is ["/"] and the replica's cut is not in it.
      The intended cut gives "/data.csv" on both sides. */
  lemma SplitSecondCutsShort()
    ensures SplitSecond(Listed("data", ["data.csv"]), "data") != SplitSecond(Listed("bak", ["data.csv"]), "bak")
    ensures SplitSecond(Listed("bak", ["data.csv"]), "bak") !in [SplitSecond(Listed("data", ["data.csv"]), "data")]
    ensures AfterFolder(Listed("data", ["data.csv"]), "data") == AfterFolder(Listed("bak", ["data.csv"]), "bak")
  {
    SourceSide();
    ReplicaSide();
  }
}
