# One-way folder synchroniser, modelled in Dafny

`backup.py` keeps a replica folder an identical copy of a source folder.
Each pass of `file_backup` does three things:

- It walks the source with `os.listdir`. It creates each missing
  directory in the replica and recurses into it.
- It copies each source file that is missing from the replica, or whose
  MD5 digest differs from the replica's copy. It leaves a file with a
  matching digest alone. It writes one log line per file, saying which of
  the three cases applied.
- It lists both folders recursively with `glob`. It removes every
  replica path that the source lacks (`os.remove` for a file,
  `shutil.rmtree` for a directory). It logs those paths in a deletion
  block: a header naming the folder, then either `None` or one line per
  removed path. Every recursive call runs its own deletion pass, so each
  source directory gets its own block.

`md5_of_file` computes a file's digest by feeding the file to the hasher
in 4096-byte chunks until a read returns nothing.

The model, module by module:

- `Files` (files.dfy): a tree is a map from relative paths (sequences of
  entry names) to nodes, each a file with byte content or a directory.
  `WellFormed` says every entry sits in a directory of the tree.
  `KindsAgree` says source and replica never hold a file and a directory
  at the same path.
- `Digest` (digest.dfy): `Md5OfFile` is the read loop of `md5_of_file`.
  The MD5 function itself is a parameter `hash`.
- `Listing` (listing.dfy): `os.listdir` and the recursive `glob`, as
  methods that return the entries in an order the model does not fix.
- `Reconcile` (reconcile.dfy): what a pass does to the replica, as
  functions of the source and of the replica the pass started from.
  `Mirror` is the replica after some children of a folder are settled.
  `Backed` is the replica after the whole pass. `Stale` is the set of
  paths a deletion block lists. It also holds the lemmas about whole
  passes: convergence, idempotence, a quiet second pass, and each stale
  path reported once.
- `Report` (report.dfy): the log text. A pass is explained by a ghost
  trace of actions: a line for each file, a block for each folder.
  `Reports` says a trace is accurate, complete and in depth-first order.
  `Render` gives the text the trace writes.
- `Backup` (backup.dfy): class `Synchronizer`. It holds the source as a
  `const` (the two folders are assumed disjoint, see Left out, so a pass
  cannot change the source), the replica as a `var` map that
  the methods update in place, and the log as a `var` sequence that they
  only append to. `FileBackup` is one pass over a folder. Its helper
  methods follow the parts of `file_backup`.
- `Relative` (relative.dfy): how the deletion pass cuts a listed path
  string down to a relative path (see Findings).

## Model

| member | source | states |
|---|---|---|
| Digest.Md5OfFile | backup.py:23-33 | The bytes handed to the hasher are the file content: each byte once, in order, in non-empty chunks of at most `size` bytes. The result is the hash of exactly those bytes, that is, of the whole file. With `size` 0 the first read is empty, so the result is the hash of no bytes. |
| Digest.Read | backup.py:31 | One `f.read(size)` gives the next bytes of the file from the current position, at most `size` of them when `size` is not negative. It gives fewer only at the end of the file, and nothing exactly at the end of the file or when `size` is 0. |
| Listing.ListDir | backup.py:44 | Lists every entry directly inside the folder exactly once, and nothing else. |
| Listing.Glob | backup.py:80-91 | Lists the folder itself first, as the empty path (the entry that `[1:]` drops), then every entry below the folder exactly once, as paths relative to the folder. |
| Listing.ChildNames | backup.py:44 | A name belongs to the folder's children exactly when the folder holds an entry of that name. |
| Listing.Descendants | backup.py:81 | A relative path belongs to the set exactly when it is non-empty and the tree holds the folder extended by it. |
| Reconcile.Classify | backup.py:61-68 | A source file is new exactly when the replica lacks it, updated exactly when the replica has it with a different digest, and not updated exactly when the two digests are equal. |
| Reconcile.Stale | backup.py:93-97 | A folder's deletion block lists a relative path exactly when the replica holds it and the source lacks the path's first entry under the folder. |
| Reconcile.MirrorNothing | backup.py:43-44 | Before any entry is handled, the replica is as the pass found it. |
| Reconcile.MirrorValid | backup.py:44-76 | Every intermediate replica of a pass is well formed and agrees with the source on kinds, and the folder is still a directory. |
| Reconcile.MirrorFileStep | backup.py:58-76 | Settling a source file changes only that path. A missing file or one with a different digest becomes the source's copy. One with an equal digest keeps the replica's content. |
| Reconcile.MirrorDirStep | backup.py:50-54 | After a missing child directory is created, the recursive pass starts on a valid replica that is unchanged below the child. Its result is the outer pass with that child settled. |
| Reconcile.FinishPass | backup.py:93-105 | Once every source child is settled, removing what the source lacks gives the whole-pass result `Backed`. The paths it removes are exactly the folder's stale paths. |
| Reconcile.Converges | backup.py:36-41 | After a pass over a folder, the replica holds below it exactly the source's paths, each of the source's kind. Every file there has the source file's digest. Nothing outside the folder changes. |
| Reconcile.ConvergesExactly | backup.py:37-38 | If the digest tells different contents apart, the replica below the folder is an exact copy of the source. |
| Reconcile.SettlesEachEntry | backup.py:50-76 | Each source entry below the folder is present afterwards. A directory stays a directory. A new or updated file holds the source content. An unchanged file keeps the replica content. |
| Reconcile.Idempotent | backup.py:35-111 | A second pass right after the first leaves the replica as the first pass left it. |
| Reconcile.SecondPassQuiet | backup.py:66-111 | After a pass over the whole tree, every source file classifies as not updated and no folder has a stale path. |
| Reconcile.StaleReportedOnce | backup.py:78-105 | Each replica path that the source lacks is stale for exactly one folder the walk visits: its deepest source ancestor. |
| Reconcile.AgreeBelowReports | backup.py:50-54 | Classification and staleness inside a child folder depend only on the replica below that child. So the recursive call's report is accurate for the outer pass too. |
| Report.StatusText | backup.py:63-75 | The text after the entry name in a file's log line: one line, starting with a space and ending with a newline. |
| Report.StatusTextDistinct | backup.py:63-75 | The three status texts differ, so a file's log line tells new, updated and not-updated apart. |
| Report.JoinSeparates | backup.py:45-46 | `os.path.join` of a folder string and an entry name keeps the folder string in front and the name at the end. A separator stands right before the name unless the folder string is empty, and at most one separator is added. |
| Report.Folder | backup.py:45-54 | The folder string of a directory the recursion reaches starts with the root string the walk began at and ends with the directory's own name. |
| Report.Header | backup.py:107 | The header of a deletion block starts with a blank line and ends its own line, and the folder string reads back from between its fixed texts. |
| Report.DeletionLines | backup.py:110-111 | One line per deleted path, in order; line i prints path i. |
| Report.DeletionBlock | backup.py:107-111 | The block starts with the header naming the folder. It has one more line than there are deleted paths, or two lines when there are none. |
| Report.ReadDeletionBlock | backup.py:107-111 | A `None` line follows the header exactly when nothing was deleted. Otherwise line i after the header reads back as the i-th deleted path. |
| Report.ReadDeletionLine | backup.py:111 | A deletion line reads back as exactly the path it was written for. |
| Report.SplitRelString | backup.py:83 | A relative path string with its leading separators reads back as the path. |
| Report.RenderConcat | backup.py:63-111 | The text of two traces in a row is the text of the first followed by the text of the second. So the log only grows by appending. |
| Report.CoversNothing | backup.py:43-44 | Before any entry is handled, the empty trace accounts for no entry. |
| Report.CoversFileStep | backup.py:58-76 | Handling a file adds exactly one line for it, with the status `Classify` gives. |
| Report.CoversDirStep | backup.py:49-54 | The recursive call's whole report joins the outer trace, still accurate, without repeats and in depth-first order. |
| Report.CoversClose | backup.py:107-111 | Once every source child is handled, appending the folder's deletion block gives a complete report of the pass. |
| Report.OneLinePerFile | backup.py:61-76 | Each source file below the folder has exactly one line in the pass's log, carrying its new, updated or not-updated status. |
| Report.BlockInReport | backup.py:78-111 | Every deletion block of a pass belongs to the folder or to a source directory below it, and lists exactly that folder's stale paths. |
| Report.OneBlockPerStalePath | backup.py:94-111 | Each replica path that the source lacks appears in exactly one deletion block of the pass. |
| Report.QuietPass | backup.py:66-111 | A second pass over an unchanged source logs only not-updated lines and empty (`None`) deletion blocks. |
| Files.Remove | backup.py:103 | `os.remove` takes out exactly the removed path and keeps every other entry as it was. |
| Files.RemoveTree | backup.py:105 | `shutil.rmtree` takes out the removed path and everything below it, and keeps every other entry as it was. |
| Backup.PruneStep | backup.py:100-105 | `os.remove` of a file, `shutil.rmtree` of a directory, and skipping a path that an earlier `rmtree` already removed each prune the same subtree. |
| Backup.PruneAll | backup.py:93-105 | Removing each listed stale path in turn leaves the replica without anything below the folder that the source lacks, and with everything else intact. |
| Backup.RemoveStaleValid | backup.py:93-105 | The deletion pass keeps the replica well formed and in agreement with the source on kinds. |
| Backup.Synchronizer.constructor | backup.py:35 | A pass starts from the source, the replica and an empty log sink. |
| Backup.Synchronizer.FileBackup | backup.py:35-111 | One pass over a folder leaves the replica equal to `Backed`. The log grows by exactly the text of a trace that `Reports` accepts: accurate, complete, in depth-first order, ending with the folder's own block. |
| Backup.Synchronizer.SyncEntries | backup.py:43-76 | After the loop over `os.listdir`, in whatever order it returns entries, every source child is settled and the log holds one accurate action per source entry below the folder. |
| Backup.Synchronizer.SyncEntry | backup.py:45-76 | One entry: a directory is handled as a directory and a file as a file. The replica moves from one `Mirror` to the next. |
| Backup.Synchronizer.SyncDirectory | backup.py:50-54 | The child directory is created if missing, then the recursive pass settles it and its report joins the trace. |
| Backup.Synchronizer.SyncFile | backup.py:57-76 | Settling one source file moves the replica from one `Mirror` to the next. The trace grows by that file's line, carrying the status `Classify` gives against the replica the pass started from. |
| Backup.Synchronizer.SettleFile | backup.py:58-76 | The status is new when the replica lacks the file, updated when the two digests differ, and not updated otherwise. Only the replica's entry at that path changes: it becomes the source's copy unless the status is not updated. The log gains one line: the bare entry name followed by the status text. |
| Backup.Synchronizer.DeleteStale | backup.py:78-105 | The deleted list holds each replica path below the folder that the source lacks, once each, including paths inside a removed directory. The replica ends without them. The log grows by the deletion block. |
| Backup.Synchronizer.WriteDeletionBlock | backup.py:107-111 | Writes the header, then `None` when the list is empty, then one line per deleted path. The replica is unchanged. |
| Relative.Find | backup.py:82 | Gives the first index at or after the start where the separator string occurs, or -1 when it occurs nowhere there. |
| Relative.SplitSecond | backup.py:82-83 | `split(folder)[1]` of a listed string is a prefix of what follows the folder. It is all of it exactly when the folder string does not occur again. |
| Relative.AfterFolder | backup.py:82-83 | The intended cut: the folder followed by the cut gives back the listed string. |
| Relative.AfterFolderListed | backup.py:82-83 | With the intended cut, a listed entry's string becomes its relative path string, whatever the folder string is. |
| Relative.SameRelativeIffSamePath | backup.py:94-96 | With the intended cut, an entry of the replica folder and an entry of the source folder get equal strings exactly when they are the same relative path. |
| Relative.CutAtRepeat | backup.py:82-83 | As written, the listed string `f/fx` of an entry directly in folder `f` whose name begins with `f` is cut to the bare separator instead of `/fx`. |
| Relative.CutWhole | backup.py:89-90 | As written, the cut is correct when the folder's first character never occurs in the relative path. |
| Relative.SplitSecondCutsShort | backup.py:81-97 | Source folder `data`, replica folder `bak`, file `data.csv` in both: the cuts differ as written (`/` against `/data.csv`). So the replica's cut is not in the source list `["/"]`, and the deletion pass removes the replica's copy. The intended cut agrees on both sides. |

## Left out

- The `__main__` block (backup.py:114-161): argument parsing, creating the replica and log folders, log file names and timestamps, and the sleep loop. It is command-line and scheduling glue around `file_backup`.
- The MD5 algorithm. The digest is a parameter `hash`, any function of the bytes. Convergence of contents (`Reconcile.ConvergesExactly`) assumes the digest tells different contents apart. Without that, `Reconcile.Converges` proves only that digests match.
- Console `print` output (backup.py:64, 72, 76, 98). It only mirrors the log.
- File metadata and symbolic links. `shutil.copy2` copies content here; modification times, permissions and `follow_symlinks=False` are not modelled.
- Filesystem errors. Trees here have no failing operations, so files that vanish during a pass and permission failures are not modelled at all.
- A replica path of the opposite kind from its source path. The `KindsAgree` precondition excludes it. As the code stands, such a path does not always raise. Take a source directory `p` that is empty and a replica file `p`. `os.path.exists` at backup.py:52 skips `makedirs`. The recursive call lists nothing at :44, and its replica glob at :88 lists nothing below the file `p`. The parent's deletion pass at :95-96 then finds `/p` on both sides and removes nothing. So the pass ends without an error, but the replica keeps a file where the source has a directory, short of the exact match promised at :37-38. The model does not cover this outcome. Nor does it cover the errors the other kind mismatches raise, such as a source file whose replica path is a directory.
- Folder strings containing glob metacharacters (`[`, `*`, `?`). `glob` at backup.py:81 and :88 reads them as patterns; the model treats folder strings literally.
- Source and replica folders are assumed disjoint: neither lies inside the other. The model keeps them as two separate trees. Under that assumption a pass cannot change the source, which is why `Backup.Synchronizer` holds it as a `const`. In the program, a replica folder inside the source folder (say `data` and `data/bak`) is part of the source. Then backup.py:53 creates `data/bak/bak`, the next `os.listdir` at :44 lists it, and the recursion does not end.
- Listing order. `os.listdir` and `glob` return entries in an order the operating system chooses, so `Listing.ListDir` and `Listing.Glob` pick each next entry nondeterministically. The proofs hold for every order.
- Listing.Glob: hidden entries are listed like any other. The pattern `folder + '**/**'` without a trailing separator would also match sibling folders whose names start with the folder's name; the model lists only entries below the folder.
- Backup.Synchronizer.DeleteStale: the comparison of source and replica listings uses the intended cut `Relative.AfterFolder`, not the cut as written (see Findings). Folder strings are assumed to have no trailing separator, as every recursive call's does; a root given with one is not modelled.
- The header names the folder by the string `Report.Folder` builds with `os.path.join` from the root string. No lemma reads that string back.

## Findings

| source | as written | input that shows it | evidently intended | confidence | as-written member | corrected member |
|---|---|---|---|---|---|---|
| backup.py:82-83, 89-90 | The relative path of a listed entry is `filename.split(folder)[1]`: the text between the folder and the next occurrence of the folder string. | Source folder `data`, replica folder `bak`, the file `data.csv` in both. The source cut is `/`, the replica cut is `/data.csv`. So `/data.csv` is not in the source list, and the replica's copy is removed and logged as deleted. This happens on every pass, right after the copy. | The text after the folder prefix, so that equal relative paths give equal strings on both sides. | high; not executed | Relative.SplitSecondCutsShort | Relative.SameRelativeIffSamePath |
