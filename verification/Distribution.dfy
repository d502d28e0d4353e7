/** Source selection of openpine/distribution.py for roots outside Git: a walk that prunes
    directories, an exclusion filter, and size caps that are checked before and while streaming. */
module Distribution {
  import opened Paths
  import opened Prelude
  import opened Sorting

  const EXCLUDED_NAMES: set<string> := {".coverage", ".DS_Store", ".env"}

  const EXCLUDED_DIRS: set<string> := {
    ".cache", ".eggs", ".git", ".hg", ".marketdata-cache", ".mypy_cache", ".nox", ".openpine",
    ".pytest_cache", ".ruff_cache", ".runtime", ".svn", ".tox", ".venv", "__pycache__", "backups",
    "build", "develop-eggs", "dist", "downloads", "eggs", "env", "htmlcov", "logs", "node_modules",
    "openpine.egg-info", "sdist", "site", "target", "venv", "wheels"}

  const EXCLUDED_SUFFIXES: set<string> := {
    ".db", ".duckdb", ".egg", ".log", ".parquet", ".pyc", ".pyo", ".sqlite", ".tsbuildinfo", ".whl", ".zip"}

  const RESEARCH_RUNTIME_DIRS: set<string> := {".cache", "artifacts", "cache", "caches", "data", "results"}

  const FALLBACK_SCAN_DIRS: set<string> := EXCLUDED_DIRS - {"build", "dist"}

  predicate IsResearchRuntimePath(p: Path) {
    |p| >= 3 && p[0] == "research" && exists i :: 1 <= i < |p| - 1 && p[i] in RESEARCH_RUNTIME_DIRS
  }

  predicate IsExcluded(p: Path)
    requires p != []
  {
    || Name(p) in EXCLUDED_NAMES
    || Lower(Suffix(Name(p))) in EXCLUDED_SUFFIXES
    || (exists i :: 0 <= i < |p| && p[i] in EXCLUDED_DIRS)
    || IsResearchRuntimePath(p)
  }

  predicate ShouldPrune(dir: Path) {
    || (exists i :: 0 <= i < |dir| && dir[i] in FALLBACK_SCAN_DIRS)
    || IsResearchRuntimePath(dir + ["placeholder"])
  }

  /** Whatever lies below a pruned directory is excluded anyway. */
  lemma PrunedIsExcluded(dir: Path, rest: Path)
    requires ShouldPrune(dir) && rest != []
    ensures IsExcluded(dir + rest)
  {
    var p := dir + rest;
    if i :| 0 <= i < |dir| && dir[i] in FALLBACK_SCAN_DIRS {
      assert p[i] in EXCLUDED_DIRS;
    } else {
      var q := dir + ["placeholder"];
      var i :| 1 <= i < |q| - 1 && q[i] in RESEARCH_RUNTIME_DIRS;
      assert p[i] == q[i] && p[0] == q[0];
      assert IsResearchRuntimePath(p);
    }
  }

  // ----- which paths are excluded and which directories pruned

  /** The name ends in a dot and an extension of the set, whatever its case; the dot neither begins nor
      ends the name, and none follows it. */
  ghost predicate HasExtension(name: string, extensions: set<string>) {
    exists k :: DotAt(name, k) && Lower(name[k..]) in extensions
  }

  ghost predicate DotAt(name: string, k: int) {
    0 < k < |name| - 1 && name[k] == '.' && forall i :: k < i < |name| ==> name[i] != '.'
  }

  ghost predicate Mentions(p: Path, names: set<string>) {
    exists i :: 0 <= i < |p| && p[i] in names
  }

  /** A directory strictly between `research` at the top and the file. */
  ghost predicate ResearchData(p: Path) {
    exists i :: 0 < i < |p| - 1 && p[0] == "research" && p[i] in RESEARCH_RUNTIME_DIRS
  }

  ghost predicate LeftOut(p: Path) {
    && p != []
    && (p[|p| - 1] in EXCLUDED_NAMES || HasExtension(p[|p| - 1], EXCLUDED_SUFFIXES) || Mentions(p, EXCLUDED_DIRS) || ResearchData(p))
  }

  lemma {:induction false} LastDotIs(name: string, n: nat)
    requires n <= |name|
    ensures var i := LastDot(name, n);
            && (i >= 0 ==> name[i] == '.') && forall j :: i < j < n ==> name[j] != '.'
  {
    if n > 0 && name[n - 1] != '.' {
      LastDotIs(name, n - 1);
    }
  }

  lemma ExtensionExactly(name: string, extensions: set<string>)
    requires "" !in extensions
    ensures Lower(Suffix(name)) in extensions <==> HasExtension(name, extensions)
  {
    LastDotIs(name, |name|);
    var i := LastDot(name, |name|);
    assert Lower("") == "";
    if 0 < i < |name| - 1 {
      assert DotAt(name, i);
    }
    if k :| DotAt(name, k) && Lower(name[k..]) in extensions {
      assert k == i;
    }
  }

  /** The exclusion filter, in terms of the path's components. */
  lemma ExcludedExactly(p: Path)
    requires p != []
    ensures IsExcluded(p) <==> LeftOut(p)
  {
    assert forall s :: s in EXCLUDED_SUFFIXES ==> s[0] == '.';
    ExtensionExactly(Name(p), EXCLUDED_SUFFIXES);
    ResearchExactly(p);
  }

  lemma ResearchExactly(p: Path)
    ensures IsResearchRuntimePath(p) <==> ResearchData(p)
  {
  }

  /** A directory with an excluded component other than `build` and `dist`, or a data directory of a
      research tree or one below it. */
  ghost predicate Prunable(dir: Path) {
    || (exists i :: 0 <= i < |dir| && dir[i] in EXCLUDED_DIRS && dir[i] != "build" && dir[i] != "dist")
    || (exists i :: 0 < i < |dir| && dir[0] == "research" && dir[i] in RESEARCH_RUNTIME_DIRS)
  }

  lemma PruneExactly(dir: Path)
    ensures ShouldPrune(dir) <==> Prunable(dir)
  {
    var q := dir + ["placeholder"];
    if i :| 0 < i < |dir| && dir[0] == "research" && dir[i] in RESEARCH_RUNTIME_DIRS {
      assert q[i] == dir[i] && q[0] == dir[0];
    }
    if IsResearchRuntimePath(q) {
      var i :| 1 <= i < |q| - 1 && q[i] in RESEARCH_RUNTIME_DIRS;
      assert q[i] == dir[i] && q[0] == dir[0];
    }
  }

  // ----- the walk

  /** A directory tree. Entries come in name order, which is the order the walk visits them in. */
  datatype Node =
    | Regular
    | Symlink
    | Special
    | Dir(entries: seq<Entry>)

  datatype Entry = Entry(name: string, node: Node)

  /** The regular files directly in a directory. */
  function FilesIn(entries: seq<Entry>, at: Path): (files: seq<Path>)
    ensures forall p :: p in files ==> |p| == |at| + 1 && p[..|at|] == at
  {
    if entries == [] then []
    else
      var rest := FilesIn(entries[1..], at);
      if entries[0].node.Regular? then [at + [entries[0].name]] + rest else rest
  }

  /** The candidates below directory `at`: its own files, then those of each directory that is
      neither a symlink nor, when pruning, one to prune. */
  function Walk(entries: seq<Entry>, at: Path, prune: bool): seq<Path>
    decreases entries, 1
  {
    FilesIn(entries, at) + WalkDirs(entries, at, prune)
  }

  function WalkDirs(entries: seq<Entry>, at: Path, prune: bool): seq<Path>
    decreases entries, 0
  {
    if entries == [] then []
    else
      var e := entries[0];
      var here := at + [e.name];
      (if e.node.Dir? && !(prune && ShouldPrune(here)) then Walk(e.node.entries, here, prune) else [])
      + WalkDirs(entries[1..], at, prune)
  }

  /** The tree holds a regular file at the path, reached through real directories only. */
  ghost predicate HoldsFile(entries: seq<Entry>, p: Path)
    decreases |p|
  {
    if |p| == 0 then false
    else if |p| == 1 then exists e :: e in entries && e.name == p[0] && e.node == Regular
    else exists e :: e in entries && e.name == p[0] && e.node.Dir? && HoldsFile(e.node.entries, p[1..])
  }

  lemma {:induction false} FilesInExactly(entries: seq<Entry>, at: Path, name: string)
    ensures at + [name] in FilesIn(entries, at) <==> exists e :: e in entries && e.name == name && e.node == Regular
  {
    if entries != [] {
      FilesInExactly(entries[1..], at, name);
      assert at + [entries[0].name] == at + [name] ==> (at + [entries[0].name])[|at|] == (at + [name])[|at|];
      assert forall e :: e in entries <==> e == entries[0] || e in entries[1..];
    }
  }

  /** The plain walk yields exactly the regular files of the tree. */
  lemma {:induction false} WalkExactly(entries: seq<Entry>, at: Path, p: Path)
    requires p != []
    ensures at + p in Walk(entries, at, false) <==> HoldsFile(entries, p)
    decreases entries, 2
  {
    if |p| == 1 {
      assert p == [p[0]];
      FilesInExactly(entries, at, p[0]);
      WalkDirsGoDeeper(entries, at, at + p);
    } else {
      assert at + p in FilesIn(entries, at) ==> |at + p| == |at| + 1;
      WalkDirsExactly(entries, at, p);
    }
  }

  lemma {:induction false} WalkDirsGoDeeper(entries: seq<Entry>, at: Path, p: Path)
    ensures p in WalkDirs(entries, at, false) ==> |p| > |at| + 1
  {
    if entries != [] {
      WalkDirsGoDeeper(entries[1..], at, p);
      if entries[0].node.Dir? {
        WalkStaysBelow(entries[0].node.entries, at + [entries[0].name], false);
      }
    }
  }

  lemma {:induction false} WalkDirsExactly(entries: seq<Entry>, at: Path, p: Path)
    requires |p| > 1
    ensures at + p in WalkDirs(entries, at, false) <==>
            exists e :: e in entries && e.name == p[0] && e.node.Dir? && HoldsFile(e.node.entries, p[1..])
    decreases entries, 1
  {
    if entries != [] {
      WalkDirsExactly(entries[1..], at, p);
      SubtreeExactly(entries[0], at, p);
      assert forall e :: e in entries <==> e == entries[0] || e in entries[1..];
    }
  }

  lemma {:induction false} SubtreeExactly(e: Entry, at: Path, p: Path)
    requires |p| > 1
    ensures (e.node.Dir? && at + p in Walk(e.node.entries, at + [e.name], false)) <==>
            (e.name == p[0] && e.node.Dir? && HoldsFile(e.node.entries, p[1..]))
    decreases e, 3
  {
    if e.node.Dir? {
      if e.name == p[0] {
        assert at + [e.name] + p[1..] == at + p;
        WalkExactly(e.node.entries, at + [e.name], p[1..]);
      } else {
        ElsewhereNotWalked(e.node.entries, at, e.name, p);
      }
    }
  }

  lemma ElsewhereNotWalked(entries: seq<Entry>, at: Path, name: string, p: Path)
    requires p != [] && p[0] != name
    ensures at + p !in Walk(entries, at + [name], false)
  {
    WalkStaysBelow(entries, at + [name], false);
    assert (at + p)[|at|] != (at + [name])[|at|];
  }

  function Kept(): Path -> bool {
    (p: Path) => p != [] && !IsExcluded(p)
  }

  ghost predicate Below(at: Path, paths: seq<Path>) {
    forall p :: p in paths ==> |p| > |at| && p[..|at|] == at
  }

  lemma {:induction false} WalkStaysBelow(entries: seq<Entry>, at: Path, prune: bool)
    ensures Below(at, Walk(entries, at, prune))
    decreases entries, 1
  {
    WalkDirsStaysBelow(entries, at, prune);
  }

  lemma {:induction false} WalkDirsStaysBelow(entries: seq<Entry>, at: Path, prune: bool)
    ensures Below(at, WalkDirs(entries, at, prune))
    decreases entries, 0
  {
    if entries != [] {
      var here := at + [entries[0].name];
      WalkDirsStaysBelow(entries[1..], at, prune);
      if entries[0].node.Dir? {
        WalkStaysBelow(entries[0].node.entries, here, prune);
        forall p | p in Walk(entries[0].node.entries, here, prune)
          ensures |p| > |at| && p[..|at|] == at
        {
          assert p[..|here|] == here;
          assert p[..|at|] == here[..|at|] == at;
        }
      }
    }
  }

  lemma {:induction false} NothingKept(paths: seq<Path>)
    requires forall p :: p in paths ==> !Kept()(p)
    ensures Filter(paths, Kept()) == []
  {
    if paths != [] {
      NothingKept(paths[1..]);
    }
  }

  lemma NothingKeptBelow(entries: seq<Entry>, here: Path)
    requires ShouldPrune(here)
    ensures Filter(Walk(entries, here, false), Kept()) == []
  {
    var files := Walk(entries, here, false);
    WalkStaysBelow(entries, here, false);
    forall p | p in files
      ensures !Kept()(p)
    {
      assert p == here + p[|here|..];
      PrunedIsExcluded(here, p[|here|..]);
    }
    NothingKept(files);
  }

  /** Pruning refines the plain walk: after the exclusion filter the two select the same files in
      the same order. */
  lemma {:induction false} PrunedWalkSelectsTheSame(entries: seq<Entry>, at: Path)
    ensures Filter(Walk(entries, at, true), Kept()) == Filter(Walk(entries, at, false), Kept())
    decreases entries, 1
  {
    PrunedDirsSelectTheSame(entries, at);
    FilterAppend(FilesIn(entries, at), WalkDirs(entries, at, true), Kept());
    FilterAppend(FilesIn(entries, at), WalkDirs(entries, at, false), Kept());
  }

  lemma {:induction false} PrunedDirsSelectTheSame(entries: seq<Entry>, at: Path)
    ensures Filter(WalkDirs(entries, at, true), Kept()) == Filter(WalkDirs(entries, at, false), Kept())
    decreases entries, 0
  {
    if entries != [] {
      var e, here := entries[0], at + [entries[0].name];
      PrunedDirsSelectTheSame(entries[1..], at);
      var pruned := if e.node.Dir? && !ShouldPrune(here) then Walk(e.node.entries, here, true) else [];
      var plain := if e.node.Dir? then Walk(e.node.entries, here, false) else [];
      FilterAppend(pruned, WalkDirs(entries[1..], at, true), Kept());
      FilterAppend(plain, WalkDirs(entries[1..], at, false), Kept());
      if e.node.Dir? {
        if ShouldPrune(here) {
          NothingKeptBelow(e.node.entries, here);
        } else {
          PrunedWalkSelectsTheSame(e.node.entries, here);
        }
      }
    }
  }

  /** Which candidates pruning drops: exactly those with a prunable directory above them. */
  ghost predicate PrunedAbove(p: Path, depth: nat) {
    exists k :: depth < k < |p| && ShouldPrune(p[..k])
  }

  lemma {:induction false} PrunedWalkExactly(entries: seq<Entry>, at: Path, p: Path)
    ensures p in Walk(entries, at, true) <==> p in Walk(entries, at, false) && !PrunedAbove(p, |at|)
    decreases entries, 1
  {
    PrunedDirsExactly(entries, at, p);
  }

  lemma {:induction false} PrunedDirsExactly(entries: seq<Entry>, at: Path, p: Path)
    ensures p in WalkDirs(entries, at, true) <==> p in WalkDirs(entries, at, false) && !PrunedAbove(p, |at|)
    decreases entries, 0
  {
    if entries != [] {
      PrunedDirsExactly(entries[1..], at, p);
      PrunedSubtreeExactly(entries[0], at, p);
    }
  }

  lemma {:induction false} PrunedSubtreeExactly(e: Entry, at: Path, p: Path)
    ensures var here := at + [e.name];
            (e.node.Dir? && !ShouldPrune(here) && p in Walk(e.node.entries, here, true)) <==>
            (e.node.Dir? && p in Walk(e.node.entries, here, false) && !PrunedAbove(p, |at|))
    decreases e, 2
  {
    var here := at + [e.name];
    if e.node.Dir? {
      PrunedWalkExactly(e.node.entries, here, p);
      WalkStaysBelow(e.node.entries, here, false);
      if p in Walk(e.node.entries, here, false) {
        PrunedAboveStep(p, here);
      }
    }
  }

  lemma PrunedAboveStep(p: Path, here: Path)
    requires here != [] && |p| > |here| && p[..|here|] == here
    ensures PrunedAbove(p, |here| - 1) <==> ShouldPrune(here) || PrunedAbove(p, |here|)
  {
  }

  // ----- the selection

  function FallbackCandidates(entries: seq<Entry>): seq<Path> {
    SortBy(Walk(entries, [], true), ByPosix)
  }

  function SelectedFiles(candidates: seq<Path>): seq<Path> {
    SortBy(Filter(candidates, Kept()), ByPosix)
  }

  /** The released file list, against the one an unpruned walk would give. */
  lemma SelectionIgnoresPruning(entries: seq<Entry>)
    ensures SelectedFiles(FallbackCandidates(entries)) ==
            SelectedFiles(SortBy(Walk(entries, [], false), ByPosix))
  {
    ByPosixOrders();
    FilterSort(Walk(entries, [], true), ByPosix, Kept());
    FilterSort(Walk(entries, [], false), ByPosix, Kept());
    PrunedWalkSelectsTheSame(entries, []);
  }

  /** What is released: the regular files of the tree that are not excluded. */
  lemma SelectionExactly(entries: seq<Entry>, p: Path)
    ensures p in SelectedFiles(FallbackCandidates(entries)) <==> HoldsFile(entries, p) && !LeftOut(p)
  {
    SelectedMembers(entries, p);
    if p != [] {
      ExcludedExactly(p);
    }
  }

  lemma SelectedMembers(entries: seq<Entry>, p: Path)
    ensures p in SelectedFiles(FallbackCandidates(entries)) <==> HoldsFile(entries, p) && Kept()(p)
  {
    SelectionIgnoresPruning(entries);
    SortedMembers(Walk(entries, [], false), Kept(), p);
    if p != [] {
      assert [] + p == p;
      WalkExactly(entries, [], p);
    }
  }

  lemma SortedMembers(paths: seq<Path>, keep: Path -> bool, p: Path)
    ensures p in SortBy(Filter(SortBy(paths, ByPosix), keep), ByPosix) <==> p in paths && keep(p)
  {
    var sorted := SortBy(paths, ByPosix);
    MultisetMembers(sorted, paths);
    MultisetMembers(SortBy(Filter(sorted, keep), ByPosix), Filter(sorted, keep));
  }

  lemma SelectedInOrder(candidates: seq<Path>, i: nat, j: nat)
    requires i < j < |SelectedFiles(candidates)|
    ensures PosixNotAfter(SelectedFiles(candidates)[i], SelectedFiles(candidates)[j])
  {
    var files := SelectedFiles(candidates);
    MultisetMembers(files, Filter(candidates, Kept()));
    ByPosixOrders();
    SortSorts(Filter(candidates, Kept()), ByPosix);
    assert files[i] in files && files[j] in files;
    LexLeExactly(Posix(files[i]), Posix(files[j]));
  }

  ghost predicate PosixNotAfter(a: Path, b: Path) {
    a != [] && b != [] && (Posix(a) == Posix(b) || StringBefore(Posix(a), Posix(b)))
  }

  ghost predicate InPosixOrder(files: seq<Path>) {
    forall i, j :: 0 <= i < j < |files| ==> PosixNotAfter(files[i], files[j])
  }

  /** And they come in the order of their POSIX spellings. */
  lemma SelectionOrdered(candidates: seq<Path>)
    ensures InPosixOrder(SelectedFiles(candidates))
  {
    var files := SelectedFiles(candidates);
    forall i, j | 0 <= i < j < |files|
      ensures PosixNotAfter(files[i], files[j])
    {
      SelectedInOrder(candidates, i, j);
    }
  }

  /** The candidates that the pruned walk offers. */
  lemma CandidatesExactly(entries: seq<Entry>, p: Path)
    ensures p in FallbackCandidates(entries) <==> HoldsFile(entries, p) && forall k :: 0 < k < |p| ==> !Prunable(p[..k])
  {
    MultisetMembers(FallbackCandidates(entries), Walk(entries, [], true));
    PrunedWalkExactly(entries, [], p);
    forall k | 0 < k < |p|
      ensures ShouldPrune(p[..k]) <==> Prunable(p[..k])
    {
      PruneExactly(p[..k]);
    }
    if p == [] {
      WalkStaysBelow(entries, [], false);
    } else {
      assert [] + p == p;
      WalkExactly(entries, [], p);
    }
  }

  // ----- size caps

  const CHUNK: nat := 1024 * 1024

  datatype SizeError = BadCaps | FileTooBig(index: nat) | TotalTooBig(index: nat)

  ghost function Sum(sizes: seq<nat>): nat {
    if sizes == [] then 0 else Sum(sizes[..|sizes| - 1]) + sizes[|sizes| - 1]
  }

  lemma {:induction false} PrefixSums(sizes: seq<nat>, i: nat)
    requires i <= |sizes|
    ensures Sum(sizes[..i]) <= Sum(sizes)
  {
    if i < |sizes| {
      var front := sizes[..|sizes| - 1];
      PrefixSums(front, i);
      assert front[..i] == sizes[..i];
    } else {
      assert sizes[..i] == sizes;
    }
  }

  ghost predicate WithinCaps(sizes: seq<nat>, maxFile: int, maxTotal: int) {
    (forall i :: 0 <= i < |sizes| ==> sizes[i] <= maxFile) && Sum(sizes) <= maxTotal
  }

  /** The scan accepts exactly the lists within both caps, and reports the first offender. */
  method ValidateSizeCaps(sizes: seq<nat>, maxFile: int, maxTotal: int) returns (r: Result<nat, SizeError>)
    ensures r.Ok? <==> maxFile > 0 && maxTotal > 0 && WithinCaps(sizes, maxFile, maxTotal)
    ensures r.Ok? ==> r.value == Sum(sizes)
    ensures r.Err? && r.error.FileTooBig? ==>
              r.error.index < |sizes| && sizes[r.error.index] > maxFile
              && WithinCaps(sizes[..r.error.index], maxFile, maxTotal)
    ensures r.Err? && r.error.TotalTooBig? ==>
              r.error.index < |sizes| && Sum(sizes[..r.error.index + 1]) > maxTotal
              && WithinCaps(sizes[..r.error.index], maxFile, maxTotal)
  {
    if maxFile <= 0 || maxTotal <= 0 {
      return Err(BadCaps);
    }
    var total := 0;
    for i := 0 to |sizes|
      invariant total == Sum(sizes[..i]) && WithinCaps(sizes[..i], maxFile, maxTotal)
    {
      if sizes[i] > maxFile {
        return Err(FileTooBig(i));
      }
      assert sizes[..i + 1][..i] == sizes[..i];
      total := total + sizes[i];
      if total > maxTotal {
        PrefixSums(sizes, i + 1);
        return Err(TotalTooBig(i));
      }
    }
    assert sizes[..|sizes|] == sizes;
    r := Ok(total);
  }

  /** Chunked copy of one file: succeeds exactly within the caps and then has copied every byte;
      otherwise only a prefix was written. */
  method CopyBounded<T>(source: seq<T>, maxFile: int, maxTotal: int, streamed: nat)
    returns (r: Result<nat, SizeError>, written: seq<T>)
    ensures r.Ok? <==> source == [] || (|source| <= maxFile && streamed + |source| <= maxTotal)
    ensures r.Ok? ==> r.value == |source| && written == source
    ensures written <= source
    ensures written != [] ==> |written| <= maxFile && streamed + |written| <= maxTotal
  {
    written := [];
    var fileBytes := 0;
    while fileBytes < |source|
      invariant fileBytes == |written| && written <= source
      invariant fileBytes > 0 ==> fileBytes <= maxFile && streamed + fileBytes <= maxTotal
      decreases |source| - fileBytes
    {
      var chunk := if |source| - fileBytes <= CHUNK then source[fileBytes..] else source[fileBytes..fileBytes + CHUNK];
      fileBytes := fileBytes + |chunk|;
      if fileBytes > maxFile {
        return Err(FileTooBig(0)), written;
      }
      if streamed + fileBytes > maxTotal {
        return Err(TotalTooBig(0)), written;
      }
      written := written + chunk;
    }
    r := Ok(fileBytes);
  }

  ghost function Lengths<T>(files: seq<seq<T>>): (sizes: seq<nat>)
    ensures |sizes| == |files| && forall i :: 0 <= i < |files| ==> sizes[i] == |files[i]|
  {
    seq(|files|, i requires 0 <= i < |files| => |files[i]|)
  }

  /** Streaming the selected files into the archive. It goes through exactly when the streamed
      bytes are within the caps that validation checks, and then the archive holds every file
      whole: files that did not grow since validation are never refused. */
  method StreamFiles<T>(files: seq<seq<T>>, maxFile: int, maxTotal: int)
    returns (r: Result<nat, SizeError>, archive: seq<seq<T>>)
    requires maxFile > 0 && maxTotal > 0
    ensures r.Ok? <==> WithinCaps(Lengths(files), maxFile, maxTotal)
    ensures r.Ok? ==> archive == files && r.value == Sum(Lengths(files))
  {
    archive := [];
    var streamed := 0;
    ghost var sizes := Lengths(files);
    for i := 0 to |files|
      invariant archive == files[..i] && streamed == Sum(sizes[..i])
      invariant WithinCaps(sizes[..i], maxFile, maxTotal)
    {
      var n, written := CopyBounded(files[i], maxFile, maxTotal, streamed);
      assert sizes[..i + 1][..i] == sizes[..i] && sizes[i] == |files[i]|;
      if n.Err? {
        PrefixSums(sizes, i + 1);
        return Err(n.error), archive;
      }
      archive, streamed := archive + [written], streamed + n.value;
    }
    assert sizes[..|files|] == sizes;
    r := Ok(streamed);
  }
}
