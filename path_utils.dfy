/** Path helpers of the backend (backend/path_utils.py): volume inference, the
    sub-path test, the directory listing read from `find`'s output, and the
    folder suggestions served to the path-entry field. The NAS is reached
    through the `Nas` oracle: its connection flag and the result of each
    command. */
module PathUtils {
  import opened Strings
  import opened Seqs
  import opened Shell

  const VolumePrefix: string := "/volume"
  const DefaultVolume: string := "/volume1"
  const CommonVolumes: seq<string> := ["/volume1", "/volume2", "/volume3", "/volume4", "/volume5"]
  const MaxSuggestions: nat := 20

  const EmptyPathMessage: string := "Path cannot be empty"
  const NotConnectedMessage: string := "Not connected to NAS"

  // ---------------------------------------------------------------------------
  // Volume inference

  /** `infer_volume_path`: a path without a volume is placed on `/volume1`. */
  function InferVolumePath(path: string): (r: string)
    ensures path == "" || StartsWith(path, VolumePrefix) ==> r == path
    ensures path != "" && !StartsWith(path, VolumePrefix) && StartsWith(path, [Sep]) ==> r == DefaultVolume + path
    ensures path != "" && !StartsWith(path, [Sep]) ==> r == DefaultVolume + [Sep] + path
    ensures path != "" ==> StartsWith(r, VolumePrefix) && EndsWith(r, path)
  {
    if path == "" then path
    else if StartsWith(path, VolumePrefix) then path
    else if StartsWith(path, [Sep]) then DefaultVolume + path
    else DefaultVolume + [Sep] + LStrip(path, Sep)
  }

  /** Inferring twice is inferring once: a result always carries a volume. */
  lemma InferVolumePathIdempotent(path: string)
    ensures InferVolumePath(InferVolumePath(path)) == InferVolumePath(path)
  {
  }

  // ---------------------------------------------------------------------------
  // Normalisation and the sub-path test

  predicate IsComponent(c: string)
  {
    c != "" && c != "."
  }

  /** The path's components, without the empty ones (from repeated or
      trailing separators) and without `.`. */
  function Components(p: string): (r: seq<string>)
    ensures forall k :: 0 <= k < |r| ==> IsComponent(r[k]) && Sep !in r[k]
  {
    var parts := Split(p, Sep);
    var r := Filter(parts, IsComponent);
    FilterMembers(parts, IsComponent);
    FilterAll(parts, IsComponent);
    assert forall k :: 0 <= k < |r| ==> r[k] in r;
    r
  }

  /** `os.path.normpath` without `..` handling: separators collapsed, `.` and
      trailing separators dropped; "." for a relative path with no component. */
  function NormPath(p: string): (r: string)
    ensures r != ""
    ensures StartsWith(r, [Sep]) <==> StartsWith(p, [Sep])
  {
    var parts := Components(p);
    if StartsWith(p, [Sep]) then
      (if parts == [] then [Sep] else [Sep] + JoinWith(parts, Sep))
    else if parts == [] then
      assert "."[0] != Sep;
      "."
    else
      JoinWithEnds(parts, Sep);
      JoinWith(parts, Sep)
  }

  /** A normalised path has no doubled leading separator and no trailing one
      (except the root itself). */
  lemma {:induction false} NormPathShape(p: string)
    ensures !StartsWith(NormPath(p), [Sep, Sep])
    ensures NormPath(p) == [Sep] || !EndsWithSep(NormPath(p))
  {
    var parts := Components(p);
    if parts != [] {
      JoinWithEnds(parts, Sep);
      var j := JoinWith(parts, Sep);
      var first, last := parts[0], parts[|parts| - 1];
      assert IsComponent(first) && Sep !in first;
      assert IsComponent(last) && Sep !in last;
      assert first[0] in first && last[|last| - 1] in last;
      assert j[0] == first[0];
      assert j[|j| - 1] == last[|last| - 1];
      if StartsWith(p, [Sep]) {
        var r := [Sep] + j;
        assert NormPath(p) == r;
        assert r[1] == j[0] && r[|r| - 1] == j[|j| - 1];
      } else {
        assert NormPath(p) == j;
      }
    } else {
      assert NormPath(p) == (if StartsWith(p, [Sep]) then [Sep] else ".");
    }
  }

  /** The components of a normalised path are the path's own components. */
  lemma {:induction false} ComponentsOfNormPath(p: string)
    ensures Components(NormPath(p)) == Components(p)
  {
    var parts := Components(p);
    if parts == [] {
      if StartsWith(p, [Sep]) {
        assert Split([Sep], Sep) == [[]] + Split([], Sep);
      } else {
        SplitNoSep(".", Sep);
      }
    } else {
      var j := JoinWith(parts, Sep);
      JoinSplit(parts, Sep);
      FilterKeepsAll(parts, IsComponent);
      if StartsWith(p, [Sep]) {
        assert ([Sep] + j)[1..] == j;
        assert Split([Sep] + j, Sep) == [[]] + parts;
        FilterAppend([[]], parts, IsComponent);
      }
    }
  }

  /** Normalising is idempotent. */
  lemma {:induction false} NormPathIdempotent(p: string)
    ensures NormPath(NormPath(p)) == NormPath(p)
  {
    ComponentsOfNormPath(p);
  }

  /** `is_subpath`: both paths non-empty and, once normalised, the child is
      the parent or lies below it. */
  function IsSubpath(child: string, parent: string): (r: bool)
    ensures child == "" || parent == "" ==> !r
    ensures r ==> NormPath(parent) <= NormPath(child)
  {
    child != "" && parent != "" &&
    (StartsWith(NormPath(child), NormPath(parent) + [Sep]) || NormPath(child) == NormPath(parent))
  }

  /** Every non-empty path is a sub-path of itself. */
  lemma IsSubpathReflexive(p: string)
    requires p != ""
    ensures IsSubpath(p, p)
  {
  }

  lemma {:induction false} NormPathRoot()
    ensures NormPath([Sep]) == [Sep]
  {
    var parts := Split([Sep], Sep);
    assert [Sep][1..] == [];
    assert parts == [[]] + Split([], Sep);
    assert parts == [[], []];
    assert parts[1..] == [[]];
    assert parts[1..][1..] == [];
    assert Filter(parts, IsComponent) == [];
  }

  /** Below the root `/` only the root itself qualifies, since no normalised
      path starts with `//`. */
  lemma {:induction false} IsSubpathOfRoot(child: string)
    ensures IsSubpath(child, [Sep]) <==> child != "" && NormPath(child) == [Sep]
  {
    NormPathRoot();
    NormPathShape(child);
    assert [Sep] + [Sep] == [Sep, Sep];
  }

  /** Lying below is transitive. */
  lemma {:induction false} IsSubpathTransitive(a: string, b: string, c: string)
    requires IsSubpath(a, b) && IsSubpath(b, c)
    ensures IsSubpath(a, c)
  {
    var na, nb, nc := NormPath(a), NormPath(b), NormPath(c);
    if na != nb && nb != nc {
      assert nc + [Sep] <= nb <= na;
    }
  }

  /** Normalising the arguments first does not change the answer. */
  lemma {:induction false} IsSubpathOfNormalised(child: string, parent: string)
    requires child != "" && parent != ""
    ensures IsSubpath(NormPath(child), NormPath(parent)) == IsSubpath(child, parent)
  {
    NormPathIdempotent(child);
    NormPathIdempotent(parent);
  }

  // ---------------------------------------------------------------------------
  // Directory listing

  /** `p.rstrip('/')`, or `/` when nothing is left. */
  function TrimDir(p: string): (r: string)
    ensures r != ""
    ensures r == [Sep] || !EndsWithSep(r)
    ensures r != [Sep] ==> r <= p
  {
    var t := RStrip(p, Sep);
    if t == "" then [Sep] else t
  }

  lemma TrimDirIdempotent(p: string)
    ensures TrimDir(TrimDir(p)) == TrimDir(p)
  {
  }

  /** Each line stripped of surrounding white space. */
  function StripAll(lines: seq<string>): (r: seq<string>)
    ensures |r| == |lines|
    ensures forall k :: 0 <= k < |r| ==> r[k] == Strip(lines[k])
  {
    seq(|lines|, k requires 0 <= k < |lines| => Strip(lines[k]))
  }

  lemma StripAllSnoc(lines: seq<string>, line: string)
    ensures StripAll(lines + [line]) == StripAll(lines) + [Strip(line)]
  {
    assert forall k :: 0 <= k < |lines| ==> (lines + [line])[k] == lines[k];
  }

  /** A stripped line of `find`'s output that names a child of `parent`: not
      blank, not the parent itself, and not a system folder (`@eaDir` and any
      other name starting with `@`). */
  predicate KeepEntry(parent: string, d: string)
  {
    d != "" && d != parent && !StartsWith(Basename(d), "@")
  }

  function KeepEntryOf(parent: string): string -> bool
  {
    d => KeepEntry(parent, d)
  }

  /** The lines of a command's output, as `output.strip().split('\n')`. */
  function Lines(output: string): seq<string>
  {
    Split(Strip(output), '\n')
  }

  /** The children of `parent` named by `find`'s output. */
  function Children(parent: string, output: string): (r: seq<string>)
    ensures forall d :: d in r <==> d in StripAll(Lines(output)) && KeepEntry(parent, d)
  {
    FilterMembers(StripAll(Lines(output)), KeepEntryOf(parent));
    Filter(StripAll(Lines(output)), KeepEntryOf(parent))
  }

  /** What `list_directories(parent)` returns. */
  function Listing(nas: Nas, parent: string): (r: seq<string>)
  {
    var p := TrimDir(parent);
    if !nas.connected then []
    else
      var res := nas.run(ListDirectories(p));
      if !res.success then [] else Children(p, res.output)
  }

  /** Everything listed is a non-blank child of the trimmed parent other than
      the parent itself, with no `@` at the start of its name. */
  lemma {:induction false} ListingEntries(nas: Nas, parent: string)
    ensures forall d :: d in Listing(nas, parent) ==>
      d != "" && d != TrimDir(parent) && !StartsWith(Basename(d), "@") && Strip(d) == d
    ensures !nas.connected ==> Listing(nas, parent) == []
  {
    var p := TrimDir(parent);
    if nas.connected && nas.run(ListDirectories(p)).success {
      ChildrenEntries(p, nas.run(ListDirectories(p)).output);
    }
  }

  /** Every child named by `find`'s output is a kept entry and already stripped. */
  lemma {:induction false} ChildrenEntries(p: string, output: string)
    ensures forall d :: d in Children(p, output) ==> KeepEntry(p, d) && Strip(d) == d
  {
    var lines := Lines(output);
    var ls := StripAll(lines);
    forall d | d in Children(p, output)
      ensures KeepEntry(p, d) && Strip(d) == d
    {
      var k :| 0 <= k < |ls| && ls[k] == d;
      StripIdempotent(lines[k]);
    }
  }

  /** `list_directories`. */
  method ListDirectoriesUnder(nas: Nas, parent: string) returns (directories: seq<string>)
    ensures directories == Listing(nas, parent)
  {
    if !nas.connected {
      return [];
    }
    var p := TrimDir(parent);
    var res := nas.run(ListDirectories(p));
    if !res.success {
      return [];
    }
    directories := ChildrenOf(p, Lines(res.output));
  }

  /** The checks `list_directories` makes on one line of `find`'s output. */
  method CheckLine(p: string, line: string) returns (keep: bool, dirPath: string)
    ensures dirPath == Strip(line)
    ensures keep <==> KeepEntry(p, dirPath)
  {
    keep := false;
    dirPath := Strip(line);
    if line != "" && dirPath != "" {
      if dirPath != p {
        var name := Basename(dirPath);
        if !StartsWith(name, "@") && name != "@eaDir" {
          keep := true;
        }
      }
    }
  }

  /** The loop of `list_directories` over the lines of `find`'s output. */
  method ChildrenOf(p: string, lines: seq<string>) returns (directories: seq<string>)
    ensures directories == Filter(StripAll(lines), KeepEntryOf(p))
  {
    ghost var stripped := StripAll(lines);
    directories := [];
    var i := 0;
    while i < |lines|
      invariant 0 <= i <= |lines|
      invariant directories == Filter(stripped[..i], KeepEntryOf(p))
    {
      FilterStep(stripped, i, KeepEntryOf(p));
      assert stripped[i] == Strip(lines[i]);
      var keep, dirPath := CheckLine(p, lines[i]);
      assert keep <==> KeepEntryOf(p)(stripped[i]);
      if keep {
        directories := directories + [dirPath];
      }
      i := i + 1;
    }
    assert stripped[..i] == stripped;
  }

  // ---------------------------------------------------------------------------
  // Volumes

  /** Both probes of `suggest_volumes` say the volume exists. */
  predicate VolumeFound(nas: Nas, volume: string)
  {
    nas.run(TestVolume(volume)).success &&
    var probe := nas.run(ProbeVolume(volume));
    probe.success && Contains(probe.output, "yes")
  }

  function VolumeFoundOn(nas: Nas): string -> bool
  {
    v => VolumeFound(nas, v)
  }

  /** What `suggest_volumes` returns: the common volumes found, or the first
      two of them when none is. */
  function Volumes(nas: Nas): (r: seq<string>)
  {
    if !nas.connected then []
    else
      var found := Filter(CommonVolumes, VolumeFoundOn(nas));
      if found != [] then found else CommonVolumes[..2]
  }

  lemma {:induction false} VolumesShape(nas: Nas)
    ensures !nas.connected ==> Volumes(nas) == []
    ensures nas.connected ==> 1 <= |Volumes(nas)| <= |CommonVolumes|
    ensures forall v :: v in Volumes(nas) ==> v in CommonVolumes
    ensures nas.connected && (forall v :: v in CommonVolumes ==> !VolumeFound(nas, v)) ==>
      Volumes(nas) == ["/volume1", "/volume2"]
    ensures nas.connected ==> forall v :: v in CommonVolumes && VolumeFound(nas, v) ==> v in Volumes(nas)
  {
    var found := Filter(CommonVolumes, VolumeFoundOn(nas));
    FilterMembers(CommonVolumes, VolumeFoundOn(nas));
    if nas.connected && found == [] {
      forall v | v in CommonVolumes
        ensures !VolumeFound(nas, v)
      {
        assert !(v in found);
      }
    }
  }

  lemma VolumesBounded(nas: Nas)
    ensures |Volumes(nas)| <= |CommonVolumes|
  {
  }

  /** `suggest_volumes`. */
  method SuggestVolumes(nas: Nas) returns (volumes: seq<string>)
    ensures volumes == Volumes(nas)
  {
    if !nas.connected {
      return [];
    }
    var existing := [];
    var i := 0;
    while i < |CommonVolumes|
      invariant 0 <= i <= |CommonVolumes|
      invariant existing == Filter(CommonVolumes[..i], VolumeFoundOn(nas))
    {
      var vol := CommonVolumes[i];
      FilterStep(CommonVolumes, i, VolumeFoundOn(nas));
      var res := nas.run(TestVolume(vol));
      if res.success {
        var check := nas.run(ProbeVolume(vol));
        if check.success && Contains(check.output, "yes") {
          existing := existing + [vol];
        }
      }
      i := i + 1;
    }
    assert CommonVolumes[..i] == CommonVolumes;
    volumes := if existing != [] then existing else CommonVolumes[..2];
  }

  // ---------------------------------------------------------------------------
  // Suggestions

  /** The sort key of `suggest_paths`: the lower-cased last segment. */
  function LowerBasename(d: string): string
  {
    Lower(Basename(d))
  }

  /** The child's last segment starts with `typedLower`, ignoring case. */
  function NameStartsWith(typedLower: string): string -> bool
  {
    d => typedLower <= LowerBasename(d)
  }

  /** The volume's name contains `partialLower`, ignoring case. */
  function NameContains(partialLower: string): string -> bool
  {
    v => Contains(Lower(v), partialLower)
  }

  /** The parent `suggest_paths` lists for a partial containing `/`. */
  function ParentOf(partial: string): string
  {
    if DirName(partial) != "" then DirName(partial) else [Sep]
  }

  /** What `suggest_paths(partial)` returns. */
  function Suggestions(nas: Nas, partial: string): (r: seq<string>)
  {
    if partial == "" then Volumes(nas)
    else if EndsWithSep(partial) then Take(Listing(nas, TrimDir(partial)), MaxSuggestions)
    else if Sep in partial then
      var typed := Basename(partial);
      var dirs := Listing(nas, ParentOf(partial));
      if typed != "" then NameMatches(dirs, Lower(typed)) else Take(dirs, MaxSuggestions)
    else VolumeMatches(Volumes(nas), Lower(partial))
  }

  /** The folders whose name starts with `typedLower`, sorted by lower-cased
      name, at most twenty. */
  function NameMatches(dirs: seq<string>, typedLower: string): seq<string>
  {
    Take(SortBy(Filter(dirs, NameStartsWith(typedLower)), LowerBasename), MaxSuggestions)
  }

  /** The volumes whose path contains `partialLower`, at most twenty. */
  function VolumeMatches(volumes: seq<string>, partialLower: string): seq<string>
  {
    Take(Filter(volumes, NameContains(partialLower)), MaxSuggestions)
  }

  lemma {:induction false} NameMatchesFacts(dirs: seq<string>, typedLower: string)
    ensures forall d :: d in NameMatches(dirs, typedLower) ==> d in dirs && typedLower <= LowerBasename(d)
    ensures SortedBy(NameMatches(dirs, typedLower), LowerBasename)
    ensures |Filter(dirs, NameStartsWith(typedLower))| <= MaxSuggestions ==>
      forall d :: d in dirs && typedLower <= LowerBasename(d) ==> d in NameMatches(dirs, typedLower)
    ensures |NameMatches(dirs, typedLower)| ==
      if |Filter(dirs, NameStartsWith(typedLower))| <= MaxSuggestions
      then |Filter(dirs, NameStartsWith(typedLower))| else MaxSuggestions
    ensures forall d, e ::
      (d in NameMatches(dirs, typedLower) && e in dirs && typedLower <= LowerBasename(e) &&
       e !in NameMatches(dirs, typedLower)) ==> LexLe(LowerBasename(d), LowerBasename(e))
  {
    var matching := Filter(dirs, NameStartsWith(typedLower));
    FilterMembers(dirs, NameStartsWith(typedLower));
    var sorted := SortBy(matching, LowerBasename);
    SortBySorted(matching, LowerBasename);
    var r := NameMatches(dirs, typedLower);
    forall d, e | d in r && e in dirs && typedLower <= LowerBasename(e) && e !in r
      ensures LexLe(LowerBasename(d), LowerBasename(e))
    {
      assert NameStartsWith(typedLower)(e);
      assert e in multiset(matching);
      assert e in sorted;
      TakeSortedSmallest(sorted, LowerBasename, MaxSuggestions, d, e);
    }
    forall d | d in r
      ensures d in dirs && typedLower <= LowerBasename(d)
    {
      TakeMember(sorted, MaxSuggestions, d);
      assert d in multiset(sorted);
      assert d in matching;
      assert NameStartsWith(typedLower)(d) == (typedLower <= LowerBasename(d));
    }
    if |matching| <= MaxSuggestions {
      forall d | d in dirs && typedLower <= LowerBasename(d)
        ensures d in r
      {
        assert NameStartsWith(typedLower)(d);
        assert d in matching;
        assert d in multiset(matching);
        assert d in sorted;
      }
    }
    forall i, j | 0 <= i < j < |r|
      ensures LexLe(LowerBasename(r[i]), LowerBasename(r[j]))
    {
      assert r[i] == sorted[i] && r[j] == sorted[j];
    }
  }

  lemma {:induction false} VolumeMatchesFacts(volumes: seq<string>, partialLower: string)
    requires |volumes| <= MaxSuggestions
    ensures forall v :: v in VolumeMatches(volumes, partialLower) <==>
      v in volumes && Contains(Lower(v), partialLower)
  {
    var matching := Filter(volumes, NameContains(partialLower));
    FilterMembers(volumes, NameContains(partialLower));
    assert VolumeMatches(volumes, partialLower) == matching;
    forall v
      ensures v in matching <==> v in volumes && Contains(Lower(v), partialLower)
    {
      assert NameContains(partialLower)(v) == Contains(Lower(v), partialLower);
    }
  }

  lemma {:induction false} TakeMember<T>(xs: seq<T>, n: nat, x: T)
    requires x in Take(xs, n)
    ensures x in xs
  {
    var r := Take(xs, n);
    var k :| 0 <= k < |r| && r[k] == x;
    assert xs[k] == x;
  }

  /** Never more than twenty suggestions. */
  lemma {:induction false} SuggestionsBounded(nas: Nas, partial: string)
    ensures |Suggestions(nas, partial)| <= MaxSuggestions
  {
    VolumesBounded(nas);
  }

  /** A partial ending in `/` is answered with the first twenty children of
      that folder, in listing order. */
  lemma SuggestionsForFolder(nas: Nas, partial: string)
    requires EndsWithSep(partial)
    ensures Suggestions(nas, partial) <= Listing(nas, TrimDir(partial))
    ensures |Listing(nas, TrimDir(partial))| <= MaxSuggestions ==>
      Suggestions(nas, partial) == Listing(nas, TrimDir(partial))
  {
  }

  /** A partial naming a folder inside a parent is answered with children of
      the parent whose name starts with the typed name, ignoring case, sorted
      by lower-cased name; when no more than twenty match, all of them. */
  lemma {:induction false} SuggestionsForName(nas: Nas, partial: string)
    requires !EndsWithSep(partial) && Sep in partial
    ensures forall d :: d in Suggestions(nas, partial) ==>
      d in Listing(nas, ParentOf(partial)) && Lower(Basename(partial)) <= LowerBasename(d)
    ensures SortedBy(Suggestions(nas, partial), LowerBasename)
    ensures |Filter(Listing(nas, ParentOf(partial)), NameStartsWith(Lower(Basename(partial))))| <= MaxSuggestions ==>
      forall d :: d in Listing(nas, ParentOf(partial)) && Lower(Basename(partial)) <= LowerBasename(d) ==>
        d in Suggestions(nas, partial)
    ensures |Suggestions(nas, partial)| ==
      var matching := Filter(Listing(nas, ParentOf(partial)), NameStartsWith(Lower(Basename(partial))));
      if |matching| <= MaxSuggestions then |matching| else MaxSuggestions
    ensures forall d, e ::
      (d in Suggestions(nas, partial) && e in Listing(nas, ParentOf(partial)) &&
       Lower(Basename(partial)) <= LowerBasename(e) && e !in Suggestions(nas, partial)) ==>
        LexLe(LowerBasename(d), LowerBasename(e))
  {
    var typed := Basename(partial);
    assert typed != "" by {
      var k :| 0 <= k < |partial| && partial[k] == Sep;
      assert LastIndexOf(partial, Sep) < |partial| - 1;
    }
    var dirs := Listing(nas, ParentOf(partial));
    assert Suggestions(nas, partial) == NameMatches(dirs, Lower(typed));
    NameMatchesFacts(dirs, Lower(typed));
  }

  /** A partial without `/` is answered with the volumes whose path contains
      it, ignoring case: a substring match, not a prefix match. */
  lemma {:induction false} SuggestionsForVolume(nas: Nas, partial: string)
    requires partial != "" && Sep !in partial
    ensures forall v :: v in Suggestions(nas, partial) <==>
      v in Volumes(nas) && Contains(Lower(v), Lower(partial))
  {
    SuggestionsOfVolume(nas, partial);
    VolumesBounded(nas);
    VolumeMatchesFacts(Volumes(nas), Lower(partial));
  }

  lemma {:induction false} SuggestionsOfVolume(nas: Nas, partial: string)
    requires partial != "" && Sep !in partial
    ensures Suggestions(nas, partial) == VolumeMatches(Volumes(nas), Lower(partial))
  {
    assert partial[|partial| - 1] in partial;
  }

  /** `suggest_paths`. */
  method SuggestPaths(nas: Nas, partial: string) returns (suggestions: seq<string>)
    ensures suggestions == Suggestions(nas, partial)
  {
    if partial == "" {
      suggestions := SuggestVolumes(nas);
      return;
    }
    if EndsWithSep(partial) {
      var dirs := ListDirectoriesUnder(nas, TrimDir(partial));
      return Take(dirs, MaxSuggestions);
    }
    if Sep in partial {
      var parent := ParentOf(partial);
      var name := Basename(partial);
      var dirs := ListDirectoriesUnder(nas, parent);
      if name != "" {
        var filtered := NamesStartingWith(dirs, Lower(name));
        var sorted := SortBy(filtered, LowerBasename);
        return Take(sorted, MaxSuggestions);
      }
      return Take(dirs, MaxSuggestions);
    }
    var volumes := SuggestVolumes(nas);
    return VolumeMatches(volumes, Lower(partial));
  }

  /** The loop of `suggest_paths` keeping the folders whose lower-cased name
      starts with `nameLower`. */
  method NamesStartingWith(dirs: seq<string>, nameLower: string) returns (filtered: seq<string>)
    ensures filtered == Filter(dirs, NameStartsWith(nameLower))
  {
    filtered := [];
    var i := 0;
    while i < |dirs|
      invariant 0 <= i <= |dirs|
      invariant filtered == Filter(dirs[..i], NameStartsWith(nameLower))
    {
      var d := dirs[i];
      FilterStep(dirs, i, NameStartsWith(nameLower));
      var dirBasename := Lower(Basename(d));
      if nameLower <= dirBasename {
        filtered := filtered + [d];
      }
      i := i + 1;
    }
    assert dirs[..i] == dirs;
  }

  // ---------------------------------------------------------------------------
  // Validation

  /** `validate_path`: (valid, error message). */
  function ValidatePath(nas: Nas, path: string): (r: (bool, Option<string>))
    ensures r.0 <==> r.1 == None
    ensures IsBlank(path) ==> r == (false, Some(EmptyPathMessage))
    ensures !IsBlank(path) && !nas.connected ==> r == (false, Some(NotConnectedMessage))
    ensures r.0 ==> nas.connected && nas.run(CheckExists(TrimDir(path))).success
                    && nas.run(CheckReadable(TrimDir(path))).success
  {
    if path == "" || Strip(path) == "" then
      StripEmptyIffBlank(path);
      (false, Some(EmptyPathMessage))
    else if !nas.connected then
      StripEmptyIffBlank(path);
      (false, Some(NotConnectedMessage))
    else
      StripEmptyIffBlank(path);
      var normalized := TrimDir(path);
      var found := nas.run(CheckExists(normalized));
      if !found.success then
        (false, Some("Cannot access path: " + (if found.error != "" then found.error else "Unknown error")))
      else if !Contains(found.output, "exists") then
        (false, Some("Path does not exist or is not a directory: " + normalized))
      else
        var readable := nas.run(CheckReadable(normalized));
        if !readable.success || !Contains(readable.output, "readable") then
          (false, Some("Path is not readable: " + normalized))
        else (true, None)
  }

  /** The readability probe answers "readable" or "notreadable", and both
      contain "readable": an existing folder is accepted whenever the probe
      command itself succeeds. */
  lemma {:induction false} ReadabilityAnswerIgnored(nas: Nas, path: string)
    requires !IsBlank(path) && nas.connected
    requires nas.run(CheckExists(TrimDir(path))) == CommandResult(true, "exists", "")
    requires nas.run(CheckReadable(TrimDir(path))) == CommandResult(true, "notreadable", "")
    ensures ValidatePath(nas, path) == (true, None)
  {
    ContainsAt("exists", "exists", 0);
    ContainsAt("notreadable", "readable", 3);
  }

  /** The readability check as evidently intended: an answer of "notreadable"
      rejects the folder, whatever else the earlier checks accepted. */
  function ValidatePathIntended(nas: Nas, path: string): (r: (bool, Option<string>))
    ensures r.0 <==> r.1 == None
    ensures r.0 ==> ValidatePath(nas, path).0
    ensures r.0 ==> !Contains(nas.run(CheckReadable(TrimDir(path))).output, "notreadable")
    ensures !Contains(nas.run(CheckReadable(TrimDir(path))).output, "notreadable") ==> r == ValidatePath(nas, path)
  {
    var r := ValidatePath(nas, path);
    var normalized := TrimDir(path);
    if r.0 && Contains(nas.run(CheckReadable(normalized)).output, "notreadable") then
      (false, Some("Path is not readable: " + normalized))
    else r
  }

  /** The intended check rejects the folder the written one accepts in
      `ReadabilityAnswerIgnored`, and accepts a folder the probe reports
      readable. */
  lemma {:induction false} IntendedReadability(nas: Nas, path: string, answer: string)
    requires !IsBlank(path) && nas.connected
    requires nas.run(CheckExists(TrimDir(path))) == CommandResult(true, "exists", "")
    requires nas.run(CheckReadable(TrimDir(path))) == CommandResult(true, answer, "")
    requires answer == "readable" || answer == "notreadable"
    ensures ValidatePathIntended(nas, path).0 <==> answer == "readable"
    ensures answer == "notreadable" ==>
              ValidatePathIntended(nas, path) == (false, Some("Path is not readable: " + TrimDir(path)))
  {
    ContainsAt("exists", "exists", 0);
    if answer == "readable" {
      ContainsAt("readable", "readable", 0);
      NotContainsLonger("readable", "notreadable");
    } else {
      ContainsAt("notreadable", "readable", 3);
      ContainsAt("notreadable", "notreadable", 0);
    }
    assert ValidatePath(nas, path) == (true, None);
  }
}
