/** Duplicate matching between the backup and the sorted folder
    (backend/duplicate_scanner.py): the image-extension test, the grouping of
    the files `find` lists by lower-cased file name, and the cross product of
    backup and sorted files that share a name. */
module DuplicateScanner {
  import opened Strings
  import opened Seqs
  import opened Shell
  import opened PathUtils

  const ImageExtensions: set<string> :=
    {".jpg", ".jpeg", ".png", ".gif", ".bmp", ".tiff", ".tif", ".webp", ".heic", ".heif",
     ".raw", ".cr2", ".nef", ".orf", ".sr2"}

  // ---------------------------------------------------------------------------
  // Extensions

  /** Some character of `s[from..to]` is not a dot. */
  predicate NonDotBetween(s: string, from: int, to: int)
    requires 0 <= from && to <= |s|
  {
    exists k :: from <= k < to && s[k] != '.'
  }

  /** `os.path.splitext(p)[1]`: from the last dot of the last segment, unless
      only dots precede it in that segment (so ".jpg" has no extension). */
  function Extension(p: string): (r: string)
    ensures r == "" || (r[0] == '.' && EndsWith(p, r) && Sep !in r && '.' !in r[1..])
  {
    var dot := LastIndexOf(p, '.');
    var sep := LastIndexOf(p, Sep);
    if dot > sep && NonDotBetween(p, sep + 1, dot) then p[dot..] else ""
  }

  /** `is_image_file`: the lower-cased name's extension is an image extension. */
  predicate IsImageFile(filename: string)
  {
    Extension(Lower(filename)) in ImageExtensions
  }

  /** Every image extension is a dot followed by at least one character that
      is neither a dot nor a separator. */
  lemma ImageExtensionsShape(e: string)
    requires e in ImageExtensions
    ensures |e| >= 2 && e[0] == '.' && '.' !in e[1..] && Sep !in e
  {
  }

  /** A name made of a stem with some character other than a dot, followed by
      an image extension in any case, is an image. */
  lemma {:induction false} ImageByExtension(stem: string, ext: string)
    requires Lower(ext) in ImageExtensions
    requires Sep !in stem
    requires exists k :: 0 <= k < |stem| && stem[k] != '.'
    ensures IsImageFile(stem + ext)
  {
    var e := Lower(ext);
    var n := Lower(stem + ext);
    LowerAppend(stem, ext);
    ImageExtensionsShape(e);
    forall j | |stem| < j < |n|
      ensures n[j] != '.' && n[j] != Sep
    {
      assert n[j] == e[j - |stem|];
      assert e[1..][j - |stem| - 1] == e[j - |stem|];
    }
    forall j | 0 <= j < |stem|
      ensures n[j] != Sep
    {
      assert n[j] == LowerChar(stem[j]);
      assert stem[j] in stem;
    }
    var k :| 0 <= k < |stem| && stem[k] != '.';
    assert n[k] == LowerChar(stem[k]);
    ExtensionAt(n, |stem|);
    assert n[|stem|..] == e;
  }

  /** A name whose last dot is at `d`, with no separator anywhere and some
      character other than a dot before `d`, has the extension starting at `d`. */
  lemma {:induction false} ExtensionAt(n: string, d: int)
    requires 0 <= d < |n| && n[d] == '.' && n[d] != Sep
    requires forall j :: d < j < |n| ==> n[j] != '.' && n[j] != Sep
    requires forall j :: 0 <= j < d ==> n[j] != Sep
    requires exists k :: 0 <= k < d && n[k] != '.'
    ensures Extension(n) == n[d..]
  {
    assert LastIndexOf(n, '.') == d;
    assert LastIndexOf(n, Sep) == -1;
  }

  /** The test ignores case. */
  lemma {:induction false} IsImageFileIgnoresCase(filename: string)
    ensures IsImageFile(Lower(filename)) == IsImageFile(filename)
  {
    LowerIdempotent(filename);
  }

  /** A name whose only dot is its first character (a hidden file such as
      ".jpg") has no extension and is never an image. */
  lemma {:induction false} HiddenFileIsNotImage(rest: string)
    requires '.' !in rest && Sep !in rest
    ensures !IsImageFile(['.'] + rest)
  {
    var name := Lower(['.'] + rest);
    assert name[0] == '.';
    forall k | 1 <= k < |name|
      ensures name[k] != '.' && name[k] != Sep
    {
      assert name[k] == LowerChar(rest[k - 1]);
      assert rest[k - 1] in rest;
    }
    assert LastIndexOf(name, '.') == 0;
  }

  // ---------------------------------------------------------------------------
  // Grouping by file name

  /** The files found for each lower-cased file name, with the names in the
      order in which they were first met (a Python dict). */
  datatype Grouping = Grouping(keys: seq<string>, files: map<string, seq<string>>)

  const NoFiles: Grouping := Grouping([], map[])

  /** The files grouped under `key`, none if the key is absent. */
  function Get(g: Grouping, key: string): seq<string>
  {
    if key in g.files then g.files[key] else []
  }

  /** The key order lists each key of the map once. */
  ghost predicate WellFormed(g: Grouping)
  {
    && (forall k :: k in g.keys <==> k in g.files)
    && (forall i, j :: 0 <= i < j < |g.keys| ==> g.keys[i] != g.keys[j])
  }

  /** The grouping key: the lower-cased file name. */
  function FileKey(path: string): string
  {
    Lower(Basename(path))
  }

  /** `exclude_path and is_subpath(path, exclude_path)`. */
  predicate Excluded(exclude: Option<string>, path: string)
  {
    exclude.Some? && exclude.value != "" && IsSubpath(path, exclude.value)
  }

  /** A stripped line of `find`'s output that the scan keeps: not blank, not
      inside a system folder (`/@`), not excluded, and an image. */
  predicate Accepted(exclude: Option<string>, path: string)
  {
    path != "" && !Contains(path, "/@") && !Excluded(exclude, path) && IsImageFile(Basename(path))
  }

  /** Appending `path` under `key`, creating the key after the others if new. */
  function Append(g: Grouping, key: string, path: string): Grouping
  {
    if key in g.files then Grouping(g.keys, g.files[key := g.files[key] + [path]])
    else Grouping(g.keys + [key], g.files[key := [path]])
  }

  /** The stripped lines that `keep` accepts, grouped by `key`. */
  function GroupBy(lines: seq<string>, keep: string -> bool, key: string -> string): Grouping
  {
    if lines == [] then NoFiles
    else
      var g := GroupBy(lines[..|lines| - 1], keep, key);
      var path := Strip(lines[|lines| - 1]);
      if keep(path) then Append(g, key(path), path) else g
  }

  /** One more line of output. */
  lemma {:induction false} GroupByStep(lines: seq<string>, i: nat, keep: string -> bool, key: string -> string)
    requires i < |lines|
    ensures var path := Strip(lines[i]);
            var g := GroupBy(lines[..i], keep, key);
            GroupBy(lines[..i + 1], keep, key) == if keep(path) then Append(g, key(path), path) else g
  {
    assert lines[..i + 1][..i] == lines[..i];
  }

  function KeptWithKey(keep: string -> bool, key: string -> string, k: string): string -> bool
  {
    p => keep(p) && key(p) == k
  }

  /** Appending keeps the key order listing each key once. */
  lemma {:induction false} AppendWellFormed(g: Grouping, key: string, path: string)
    requires WellFormed(g)
    ensures WellFormed(Append(g, key, path))
  {
    var r := Append(g, key, path);
    if key !in g.files {
      forall i, j | 0 <= i < j < |r.keys|
        ensures r.keys[i] != r.keys[j]
      {
        if j == |g.keys| {
          assert r.keys[i] in g.keys;
        }
      }
    }
  }

  lemma {:induction false} GroupByWellFormed(lines: seq<string>, keep: string -> bool, key: string -> string)
    ensures WellFormed(GroupBy(lines, keep, key))
  {
    if lines != [] {
      GroupByWellFormed(lines[..|lines| - 1], keep, key);
      var path := Strip(lines[|lines| - 1]);
      AppendWellFormed(GroupBy(lines[..|lines| - 1], keep, key), key(path), path);
    }
  }

  /** Appending adds `path` to the files of its own key only. */
  lemma GetAppend(g: Grouping, key: string, path: string, k: string)
    ensures Get(Append(g, key, path), k) == Get(g, k) + (if key == k then [path] else [])
  {
  }

  /** Under each key are exactly the kept stripped lines with that key, in
      the order of the output. */
  lemma {:induction false} GroupByContents(lines: seq<string>, keep: string -> bool, key: string -> string, k: string)
    ensures Get(GroupBy(lines, keep, key), k) == Filter(StripAll(lines), KeptWithKey(keep, key, k))
  {
    if lines != [] {
      var init := lines[..|lines| - 1];
      var line := lines[|lines| - 1];
      var g := GroupBy(init, keep, key);
      var path := Strip(line);
      GroupByContents(init, keep, key, k);
      assert lines == init + [line];
      StripAllSnoc(init, line);
      FilterSnoc(StripAll(init), path, KeptWithKey(keep, key, k));
      if keep(path) {
        GetAppend(g, key(path), path, k);
      }
    }
  }

  /** Every grouped file is a kept, stripped line filed under its own key. */
  lemma {:induction false} GroupedFilesKept(lines: seq<string>, keep: string -> bool, key: string -> string, k: string, path: string)
    requires path in Get(GroupBy(lines, keep, key), k)
    ensures keep(path) && key(path) == k
  {
    GroupByContents(lines, keep, key, k);
    FilterMembers(StripAll(lines), KeptWithKey(keep, key, k));
    assert KeptWithKey(keep, key, k)(path);
  }

  function AcceptedBy(exclude: Option<string>): string -> bool
  {
    p => Accepted(exclude, p)
  }

  /** What `scan_folder_for_images(folder, exclude)` returns. */
  function Scanned(nas: Nas, folder: string, exclude: Option<string>): Grouping
  {
    if !nas.connected || Excluded(exclude, folder) then NoFiles
    else
      var res := nas.run(FindFiles(folder));
      if !res.success then NoFiles else GroupBy(Lines(res.output), AcceptedBy(exclude), FileKey)
  }

  /** Every scanned file is an accepted path under its own key; a scan that
      cannot start, or whose folder is excluded, finds nothing. */
  lemma {:induction false} ScannedFilesAccepted(nas: Nas, folder: string, exclude: Option<string>, key: string, path: string)
    requires path in Get(Scanned(nas, folder, exclude), key)
    ensures Accepted(exclude, path) && FileKey(path) == key
    ensures nas.connected && !Excluded(exclude, folder)
  {
    var lines := Lines(nas.run(FindFiles(folder)).output);
    GroupedFilesKept(lines, AcceptedBy(exclude), FileKey, key, path);
  }

  /** A line of `find`'s output that the scan accepts: the scan ran, and the
      stripped line passes every skip. */
  predicate Found(nas: Nas, folder: string, exclude: Option<string>, path: string)
  {
    && nas.connected && !Excluded(exclude, folder) && nas.run(FindFiles(folder)).success
    && path in StripAll(Lines(nas.run(FindFiles(folder)).output)) && Accepted(exclude, path)
  }

  /** Conversely, every accepted line is filed under its own key, and that key
      is listed. */
  lemma {:induction false} ScannedFilesComplete(nas: Nas, folder: string, exclude: Option<string>, path: string)
    requires Found(nas, folder, exclude, path)
    ensures path in Get(Scanned(nas, folder, exclude), FileKey(path))
    ensures FileKey(path) in Scanned(nas, folder, exclude).keys
  {
    var lines := Lines(nas.run(FindFiles(folder)).output);
    var g := Scanned(nas, folder, exclude);
    var keep := KeptWithKey(AcceptedBy(exclude), FileKey, FileKey(path));
    GroupByContents(lines, AcceptedBy(exclude), FileKey, FileKey(path));
    FilterMembers(StripAll(lines), keep);
    assert keep(path);
    ScannedWellFormed(nas, folder, exclude);
  }

  lemma {:induction false} ScannedWellFormed(nas: Nas, folder: string, exclude: Option<string>)
    ensures WellFormed(Scanned(nas, folder, exclude))
  {
    GroupByWellFormed(Lines(nas.run(FindFiles(folder)).output), AcceptedBy(exclude), FileKey);
  }

  /** `scan_folder_for_images`. */
  method ScanFolderForImages(nas: Nas, folder: string, exclude: Option<string>) returns (filesByName: Grouping)
    ensures filesByName == Scanned(nas, folder, exclude)
  {
    if !nas.connected {
      return NoFiles;
    }
    if exclude.Some? && exclude.value != "" && IsSubpath(folder, exclude.value) {
      return NoFiles;
    }
    var res := nas.run(FindFiles(folder));
    if !res.success {
      return NoFiles;
    }
    filesByName := GroupFound(Lines(res.output), exclude);
  }

  /** The loop of `scan_folder_for_images` over the lines of `find`'s output. */
  method GroupFound(lines: seq<string>, exclude: Option<string>) returns (filesByName: Grouping)
    ensures filesByName == GroupBy(lines, AcceptedBy(exclude), FileKey)
  {
    filesByName := NoFiles;
    var i := 0;
    while i < |lines|
      invariant 0 <= i <= |lines|
      invariant filesByName == GroupBy(lines[..i], AcceptedBy(exclude), FileKey)
    {
      var filePath := Strip(lines[i]);
      var keep := Keeps(exclude, filePath);
      GroupByStep(lines, i, AcceptedBy(exclude), FileKey);
      assert AcceptedBy(exclude)(filePath) == keep;
      if keep {
        var key := Lower(Basename(filePath));
        filesByName := AddFile(filesByName, key, filePath);
      }
      i := i + 1;
    }
    assert lines[..i] == lines;
  }

  /** `files_by_name.setdefault(key, []).append(path)`, written out. */
  method AddFile(filesByName: Grouping, key: string, filePath: string) returns (r: Grouping)
    ensures r == Append(filesByName, key, filePath)
  {
    r := filesByName;
    if key !in r.files {
      r := Grouping(r.keys + [key], r.files[key := []]);
      assert [] + [filePath] == [filePath];
      assert r.files[key := [filePath]] == filesByName.files[key := [filePath]];
    }
    r := Grouping(r.keys, r.files[key := r.files[key] + [filePath]]);
  }

  /** The skips in the loop body of `scan_folder_for_images`. */
  method Keeps(exclude: Option<string>, filePath: string) returns (keep: bool)
    ensures keep == Accepted(exclude, filePath)
  {
    if filePath == "" {
      return false;   // a blank line
    }
    if Contains(filePath, "/@") {
      return false;   // a file inside a system folder
    }
    if exclude.Some? && exclude.value != "" && IsSubpath(filePath, exclude.value) {
      return false;   // a file under the excluded folder
    }
    keep := IsImageFile(Basename(filePath));
  }

  // ---------------------------------------------------------------------------
  // Pairs

  datatype DuplicatePair = DuplicatePair(backupPath: string, sortedPath: string, filename: string)

  /** One backup file paired with each sorted file, in order. */
  function Row(backupFile: string, sortedFiles: seq<string>): (r: seq<DuplicatePair>)
    ensures |r| == |sortedFiles|
    ensures forall j :: 0 <= j < |r| ==>
      r[j] == DuplicatePair(backupFile, sortedFiles[j], Basename(backupFile))
  {
    seq(|sortedFiles|, j requires 0 <= j < |sortedFiles| =>
      DuplicatePair(backupFile, sortedFiles[j], Basename(backupFile)))
  }

  /** A pair joins a file of each list and is named after its backup file. */
  predicate Joins(p: DuplicatePair, backupFiles: seq<string>, sortedFiles: seq<string>)
  {
    p.backupPath in backupFiles && p.sortedPath in sortedFiles && p.filename == Basename(p.backupPath)
  }

  /** Every backup file paired with every sorted file, backup-major: exactly
      the pairs that join a file of each list. */
  function Cross(backupFiles: seq<string>, sortedFiles: seq<string>): (r: seq<DuplicatePair>)
    ensures |r| == |backupFiles| * |sortedFiles|
    ensures forall p :: p in r <==> Joins(p, backupFiles, sortedFiles)
  {
    if backupFiles == [] then []
    else
      var n := |backupFiles| - 1;
      var r := Cross(backupFiles[..n], sortedFiles) + Row(backupFiles[n], sortedFiles);
      assert |r| == n * |sortedFiles| + |sortedFiles|;
      assert backupFiles == backupFiles[..n] + [backupFiles[n]];
      CrossStep(backupFiles[..n], backupFiles[n], sortedFiles, Cross(backupFiles[..n], sortedFiles));
      r
  }

  /** Adding one backup file to the cross product adds the pairs of its row. */
  lemma {:induction false} CrossStep(pre: seq<string>, last: string, sortedFiles: seq<string>, init: seq<DuplicatePair>)
    requires forall p :: p in init <==> Joins(p, pre, sortedFiles)
    ensures forall p :: p in init + Row(last, sortedFiles) <==> Joins(p, pre + [last], sortedFiles)
  {
    var row := Row(last, sortedFiles);
    forall p
      ensures p in init + row <==> Joins(p, pre + [last], sortedFiles)
    {
      if p in row {
        var j :| 0 <= j < |row| && row[j] == p;
      }
      if Joins(p, pre + [last], sortedFiles) && p.backupPath == last {
        var j :| 0 <= j < |sortedFiles| && sortedFiles[j] == p.sortedPath;
        assert row[j] == p;
      }
    }
  }

  /** The pairs for the backup keys `keys`, in that order. */
  function PairsOver(keys: seq<string>, backup: Grouping, sorted: Grouping): seq<DuplicatePair>
  {
    if keys == [] then []
    else
      var k := keys[|keys| - 1];
      PairsOver(keys[..|keys| - 1], backup, sorted)
        + (if k in sorted.files then Cross(Get(backup, k), Get(sorted, k)) else [])
  }

  /** The number of pairs for the backup keys `keys`: the sum of
      |backup files| * |sorted files| over the keys both sides have. */
  function PairCount(keys: seq<string>, backup: Grouping, sorted: Grouping): nat
  {
    if keys == [] then 0
    else
      var k := keys[|keys| - 1];
      PairCount(keys[..|keys| - 1], backup, sorted)
        + (if k in sorted.files then |Get(backup, k)| * |Get(sorted, k)| else 0)
  }

  /** The pairs `find_duplicates` builds from the two scans. */
  function Pairs(backup: Grouping, sorted: Grouping): seq<DuplicatePair>
  {
    PairsOver(backup.keys, backup, sorted)
  }

  lemma {:induction false} PairsOverCount(keys: seq<string>, backup: Grouping, sorted: Grouping)
    ensures |PairsOver(keys, backup, sorted)| == PairCount(keys, backup, sorted)
  {
    if keys != [] {
      PairsOverCount(keys[..|keys| - 1], backup, sorted);
    }
  }

  /** Each pair joins a backup file and a sorted file filed under the same
      key, and carries the backup file's name. */
  lemma {:induction false} PairsOverMembers(keys: seq<string>, backup: Grouping, sorted: Grouping, p: DuplicatePair)
    requires p in PairsOver(keys, backup, sorted)
    ensures exists k :: k in keys && p.backupPath in Get(backup, k) && p.sortedPath in Get(sorted, k)
    ensures p.filename == Basename(p.backupPath)
  {
    var k := keys[|keys| - 1];
    var init := PairsOver(keys[..|keys| - 1], backup, sorted);
    if p in init {
      PairsOverMembers(keys[..|keys| - 1], backup, sorted, p);
      var k' :| k' in keys[..|keys| - 1] && p.backupPath in Get(backup, k') && p.sortedPath in Get(sorted, k');
      assert k' in keys;
    } else {
      assert k in sorted.files && p in Cross(Get(backup, k), Get(sorted, k));
    }
  }

  /** Conversely, every backup file is paired with every sorted file filed
      under the same key, for each key the sorted side has. */
  lemma {:induction false} PairsOverComplete(keys: seq<string>, backup: Grouping, sorted: Grouping, k: string, p: DuplicatePair)
    requires k in keys && k in sorted.files
    requires Joins(p, Get(backup, k), Get(sorted, k))
    ensures p in PairsOver(keys, backup, sorted)
  {
    var n := |keys| - 1;
    if keys[n] == k {
      assert p in Cross(Get(backup, k), Get(sorted, k));
    } else {
      assert k in keys[..n] by {
        var i :| 0 <= i < |keys| && keys[i] == k;
        assert keys[..n][i] == k;
      }
      PairsOverComplete(keys[..n], backup, sorted, k, p);
    }
  }

  /** The exclusion `find_duplicates` applies to the sorted scan: the backup
      folder, when it lies inside the sorted folder. */
  function SortedExclusion(backupPath: string, sortedPath: string): (r: Option<string>)
    ensures r.Some? <==> IsSubpath(backupPath, sortedPath)
  {
    if IsSubpath(backupPath, sortedPath) then Some(backupPath) else None
  }

  /** What `find_duplicates(backup, sorted)` returns. */
  function Duplicates(nas: Nas, backupPath: string, sortedPath: string): seq<DuplicatePair>
  {
    Pairs(Scanned(nas, backupPath, None), Scanned(nas, sortedPath, SortedExclusion(backupPath, sortedPath)))
  }

  /** The number of pairs is the sum over shared names of the product of the
      two sides' file counts. */
  lemma {:induction false} DuplicatesCount(nas: Nas, backupPath: string, sortedPath: string)
    ensures var b := Scanned(nas, backupPath, None);
            var s := Scanned(nas, sortedPath, SortedExclusion(backupPath, sortedPath));
            |Duplicates(nas, backupPath, sortedPath)| == PairCount(b.keys, b, s)
  {
    var b := Scanned(nas, backupPath, None);
    var s := Scanned(nas, sortedPath, SortedExclusion(backupPath, sortedPath));
    PairsOverCount(b.keys, b, s);
  }

  /** In every pair both files are images with the same name up to case, the
      pair is named after the backup file, and when the backup folder lies
      inside the sorted folder no sorted file of a pair lies in the backup
      folder. */
  lemma {:induction false} DuplicatesMatch(nas: Nas, backupPath: string, sortedPath: string, p: DuplicatePair)
    requires p in Duplicates(nas, backupPath, sortedPath)
    ensures Lower(Basename(p.backupPath)) == Lower(Basename(p.sortedPath))
    ensures p.filename == Basename(p.backupPath)
    ensures IsImageFile(Basename(p.backupPath)) && IsImageFile(Basename(p.sortedPath))
    ensures IsSubpath(backupPath, sortedPath) ==> !IsSubpath(p.sortedPath, backupPath)
  {
    var exclusion := SortedExclusion(backupPath, sortedPath);
    var b := Scanned(nas, backupPath, None);
    var s := Scanned(nas, sortedPath, exclusion);
    PairsOverMembers(b.keys, b, s, p);
    var k :| k in b.keys && p.backupPath in Get(b, k) && p.sortedPath in Get(s, k);
    ScannedFilesAccepted(nas, backupPath, None, k, p.backupPath);
    ScannedFilesAccepted(nas, sortedPath, exclusion, k, p.sortedPath);
  }

  /** Every accepted backup file is paired with every accepted sorted file of
      the same name up to case. */
  lemma {:induction false} DuplicatesComplete(nas: Nas, backupPath: string, sortedPath: string, b: string, s: string)
    requires Found(nas, backupPath, None, b)
    requires Found(nas, sortedPath, SortedExclusion(backupPath, sortedPath), s)
    requires FileKey(b) == FileKey(s)
    ensures DuplicatePair(b, s, Basename(b)) in Duplicates(nas, backupPath, sortedPath)
  {
    var exclusion := SortedExclusion(backupPath, sortedPath);
    var bg := Scanned(nas, backupPath, None);
    var sg := Scanned(nas, sortedPath, exclusion);
    ScannedFilesComplete(nas, backupPath, None, b);
    ScannedFilesComplete(nas, sortedPath, exclusion, s);
    ScannedWellFormed(nas, sortedPath, exclusion);
    PairsOverComplete(bg.keys, bg, sg, FileKey(b), DuplicatePair(b, s, Basename(b)));
  }

  /** Scanning a folder against itself finds nothing: the sorted scan is
      skipped as lying inside the excluded backup folder. */
  lemma {:induction false} SameFolderHasNoDuplicates(nas: Nas, folder: string)
    requires folder != ""
    ensures Duplicates(nas, folder, folder) == []
  {
    IsSubpathReflexive(folder);
    var b := Scanned(nas, folder, None);
    assert Scanned(nas, folder, Some(folder)) == NoFiles;
    NoPairsWithoutSorted(b.keys, b);
  }

  lemma {:induction false} NoPairsWithoutSorted(keys: seq<string>, backup: Grouping)
    ensures PairsOver(keys, backup, NoFiles) == []
  {
    if keys != [] {
      NoPairsWithoutSorted(keys[..|keys| - 1], backup);
    }
  }

  /** `find_duplicates`. */
  method FindDuplicates(nas: Nas, backupPath: string, sortedPath: string) returns (duplicatePairs: seq<DuplicatePair>)
    ensures duplicatePairs == Duplicates(nas, backupPath, sortedPath)
  {
    var excludeFromSorted := None;
    if IsSubpath(backupPath, sortedPath) {
      excludeFromSorted := Some(backupPath);
    }
    var backupFiles := ScanFolderForImages(nas, backupPath, None);
    var sortedFiles := ScanFolderForImages(nas, sortedPath, excludeFromSorted);
    duplicatePairs := PairUp(backupFiles, sortedFiles);
  }

  /** The loops of `find_duplicates` over the two groupings. */
  method PairUp(backupFiles: Grouping, sortedFiles: Grouping) returns (duplicatePairs: seq<DuplicatePair>)
    ensures duplicatePairs == Pairs(backupFiles, sortedFiles)
  {
    var keys := backupFiles.keys;
    duplicatePairs := [];
    var i := 0;
    while i < |keys|
      invariant 0 <= i <= |keys|
      invariant duplicatePairs == PairsOver(keys[..i], backupFiles, sortedFiles)
    {
      var filenameLower := keys[i];
      assert keys[..i + 1][..i] == keys[..i];
      if filenameLower in sortedFiles.files {
        var more := CrossLoop(Get(backupFiles, filenameLower), sortedFiles.files[filenameLower]);
        duplicatePairs := duplicatePairs + more;
      }
      i := i + 1;
    }
    assert keys[..i] == keys;
  }

  /** The two inner loops: each backup file with each sorted file. */
  method CrossLoop(backupPaths: seq<string>, sortedPaths: seq<string>) returns (pairs: seq<DuplicatePair>)
    ensures pairs == Cross(backupPaths, sortedPaths)
  {
    pairs := [];
    var i := 0;
    while i < |backupPaths|
      invariant 0 <= i <= |backupPaths|
      invariant pairs == Cross(backupPaths[..i], sortedPaths)
    {
      CrossSnoc(backupPaths, i, sortedPaths);
      var row := RowLoop(backupPaths[i], sortedPaths);
      pairs := pairs + row;
      i := i + 1;
    }
    assert backupPaths[..i] == backupPaths;
  }

  /** Extending the backup files by one appends that file's row. */
  lemma CrossSnoc(backupFiles: seq<string>, i: nat, sortedFiles: seq<string>)
    requires i < |backupFiles|
    ensures Cross(backupFiles[..i + 1], sortedFiles) == Cross(backupFiles[..i], sortedFiles) + Row(backupFiles[i], sortedFiles)
  {
    assert backupFiles[..i + 1][..i] == backupFiles[..i];
  }

  /** The innermost loop: one backup file with each sorted file. */
  method RowLoop(backupFile: string, sortedPaths: seq<string>) returns (pairs: seq<DuplicatePair>)
    ensures pairs == Row(backupFile, sortedPaths)
  {
    pairs := [];
    var j := 0;
    while j < |sortedPaths|
      invariant 0 <= j <= |sortedPaths|
      invariant pairs == Row(backupFile, sortedPaths[..j])
    {
      pairs := pairs + [DuplicatePair(backupFile, sortedPaths[j], Basename(backupFile))];
      j := j + 1;
    }
    assert sortedPaths[..j] == sortedPaths;
  }
}
