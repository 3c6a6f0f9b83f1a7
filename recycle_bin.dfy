/** The Synology recycle bin as `backend/recycle_bin.py` uses it: finding the
    bin of a share, moving a file into it and moving it back. Every step is a
    shell command on the NAS; the model records the commands in the order they
    are sent, so that "no `mv` after a failed `mkdir`" can be stated. */
module RecycleBin {
  import opened Strings
  import opened Shell

  /** The folder names a share's recycle bin may have, in the order tried. */
  const Candidates: seq<string> := ["#recycle", "@Recycle", "@recycle", ".recycle"]

  const NotConnected := "SSH not connected"
  const MkdirFailed := "Failed to create recycle directory: "
  const MoveFailed := "Failed to move file: "
  const RestoreMkdirFailed := "Failed to create original directory: "
  const RestoreFailed := "Failed to restore file: "

  /** What `move_to_recycle_bin` returns: `(success, new_location, error_message)`. */
  datatype MoveResult = MoveResult(success: bool, newLocation: Option<string>, error: Option<string>)

  /** What `restore_from_recycle_bin` returns: `(success, error_message)`. */
  datatype RestoreResult = RestoreResult(success: bool, error: Option<string>)

  /** `test -d path && echo "exists"` succeeded and printed "exists". */
  predicate ReportsExisting(nas: Nas, path: string)
  {
    var res := nas.run(TestDirectory(path));
    res.success && res.output != "" && Contains(res.output, "exists")
  }

  /** The first of `names`, joined to the share root, that the NAS reports as
      an existing directory. */
  function FirstExisting(nas: Nas, shareRoot: string, names: seq<string>): Option<string>
  {
    if names == [] then None
    else if ReportsExisting(nas, Join(shareRoot, names[0])) then Some(Join(shareRoot, names[0]))
    else FirstExisting(nas, shareRoot, names[1..])
  }

  /** `detect_recycle_bin(share_root)`. */
  function Detected(nas: Nas, shareRoot: string): Option<string>
  {
    if !nas.connected then None else FirstExisting(nas, shareRoot, Candidates)
  }

  /** Candidate `i` exists and no earlier candidate does. */
  ghost predicate FirstFoundAt(nas: Nas, shareRoot: string, names: seq<string>, i: int)
  {
    0 <= i < |names| && ReportsExisting(nas, Join(shareRoot, names[i])) &&
    forall j :: 0 <= j < i ==> !ReportsExisting(nas, Join(shareRoot, names[j]))
  }

  lemma {:induction false} FirstExistingSpec(nas: Nas, shareRoot: string, names: seq<string>)
    ensures FirstExisting(nas, shareRoot, names).None? <==>
            forall i :: 0 <= i < |names| ==> !ReportsExisting(nas, Join(shareRoot, names[i]))
    ensures FirstExisting(nas, shareRoot, names).Some? ==>
            exists i :: FirstFoundAt(nas, shareRoot, names, i) &&
                        FirstExisting(nas, shareRoot, names).value == Join(shareRoot, names[i])
  {
    if names != [] && !ReportsExisting(nas, Join(shareRoot, names[0])) {
      FirstExistingSpec(nas, shareRoot, names[1..]);
      var r := FirstExisting(nas, shareRoot, names);
      if r.Some? {
        var i :| FirstFoundAt(nas, shareRoot, names[1..], i) && r.value == Join(shareRoot, names[1..][i]);
        assert FirstFoundAt(nas, shareRoot, names, i + 1);
      }
    } else if names != [] {
      assert FirstFoundAt(nas, shareRoot, names, 0);
    }
  }

  /** Detection gives nothing without a connection; otherwise it gives the
      first candidate, in the order `#recycle`, `@Recycle`, `@recycle`,
      `.recycle`, that exists directly under the share root, and nothing only
      when none of them exists. */
  lemma {:induction false} DetectedSpec(nas: Nas, shareRoot: string)
    ensures !nas.connected ==> Detected(nas, shareRoot).None?
    ensures nas.connected ==>
            (Detected(nas, shareRoot).None? <==>
             forall i :: 0 <= i < |Candidates| ==> !ReportsExisting(nas, Join(shareRoot, Candidates[i])))
    ensures Detected(nas, shareRoot).Some? ==>
            exists i :: FirstFoundAt(nas, shareRoot, Candidates, i) &&
                        Detected(nas, shareRoot).value == Join(shareRoot, Candidates[i])
  {
    FirstExistingSpec(nas, shareRoot, Candidates);
  }

  /** A detected bin lies under the share root and is named after one of the
      candidates. */
  lemma {:induction false} DetectedUnderShareRoot(nas: Nas, shareRoot: string)
    requires Detected(nas, shareRoot).Some?
    ensures shareRoot <= Detected(nas, shareRoot).value
    ensures Basename(Detected(nas, shareRoot).value) in Candidates
  {
    DetectedSpec(nas, shareRoot);
    var i :| FirstFoundAt(nas, shareRoot, Candidates, i) &&
             Detected(nas, shareRoot).value == Join(shareRoot, Candidates[i]);
    CandidatesHaveNoSep();
    BasenameOfJoin(shareRoot, Candidates[i]);
  }

  lemma CandidatesHaveNoSep()
    ensures forall i :: 0 <= i < |Candidates| ==> Sep !in Candidates[i]
  {
    assert Sep !in Candidates[0] && Sep !in Candidates[1];
    assert Sep !in Candidates[2] && Sep !in Candidates[3];
  }

  method DetectRecycleBin(nas: Nas, shareRoot: string) returns (found: Option<string>)
    ensures found == Detected(nas, shareRoot)
  {
    if !nas.connected {
      return None;
    }
    var i := 0;
    while i < |Candidates|
      invariant 0 <= i <= |Candidates|
      invariant FirstExisting(nas, shareRoot, Candidates[i..]) == FirstExisting(nas, shareRoot, Candidates)
    {
      var recyclePath := Join(shareRoot, Candidates[i]);
      var res := nas.run(TestDirectory(recyclePath));
      if res.success && res.output != "" && Contains(res.output, "exists") {
        return Some(recyclePath);
      }
      assert Candidates[i..][1..] == Candidates[i + 1..];
      i := i + 1;
    }
    return None;
  }

  /** The folder inside the bin that receives the file: the bin joined with
      the name of the file's parent directory. */
  function RecycleDir(filePath: string, recycleBin: string): string
  {
    Join(recycleBin, Basename(DirName(filePath)))
  }

  /** Where the file lands: `bin/<parent directory name>/<file name>`. */
  function NewLocation(filePath: string, recycleBin: string): string
  {
    Join(RecycleDir(filePath, recycleBin), Basename(filePath))
  }

  /** The new location is inside the bin, keeps the file's name and sits in a
      folder named after the file's parent directory. */
  lemma {:induction false} NewLocationShape(filePath: string, recycleBin: string)
    ensures recycleBin <= RecycleDir(filePath, recycleBin)
    ensures Basename(RecycleDir(filePath, recycleBin)) == Basename(DirName(filePath))
    ensures RecycleDir(filePath, recycleBin) <= NewLocation(filePath, recycleBin)
    ensures Basename(NewLocation(filePath, recycleBin)) == Basename(filePath)
  {
    JoinTwice(recycleBin, Basename(DirName(filePath)), Basename(filePath));
  }

  /** Joining two separator-free names onto a folder. */
  lemma {:induction false} JoinTwice(folder: string, dir: string, name: string)
    requires Sep !in dir && Sep !in name
    ensures folder <= Join(folder, dir) && Basename(Join(folder, dir)) == dir
    ensures Join(folder, dir) <= Join(Join(folder, dir), name)
    ensures Basename(Join(Join(folder, dir), name)) == name
  {
    BasenameOfJoin(folder, dir);
    BasenameOfJoin(Join(folder, dir), name);
  }

  /** Only one directory level is kept: two files with the same name whose
      parent directories have the same name land on the same spot in the bin,
      whatever the rest of their paths. */
  lemma NewLocationKeepsOneLevel(file1: string, file2: string, recycleBin: string)
    requires Basename(file1) == Basename(file2)
    requires Basename(DirName(file1)) == Basename(DirName(file2))
    ensures NewLocation(file1, recycleBin) == NewLocation(file2, recycleBin)
  {
  }

  /** `move_to_recycle_bin(file_path, recycle_bin_path)`: its result and the
      commands it sends, in order. */
  function Moved(nas: Nas, filePath: string, recycleBin: string): (MoveResult, seq<Command>)
  {
    if !nas.connected then (MoveResult(false, None, Some(NotConnected)), [])
    else
      var mkdir := MakeDirs(RecycleDir(filePath, recycleBin));
      var mv := Move(filePath, NewLocation(filePath, recycleBin));
      if !nas.run(mkdir).success then
        (MoveResult(false, None, Some(MkdirFailed + nas.run(mkdir).error)), [mkdir])
      else if !nas.run(mv).success then
        (MoveResult(false, None, Some(MoveFailed + nas.run(mv).error)), [mkdir, mv])
      else (MoveResult(true, Some(NewLocation(filePath, recycleBin)), None), [mkdir, mv])
  }

  /** The outcomes of a move: success exactly when both commands succeed, a
      new location exactly on success and an error message exactly on
      failure; no `mv` is sent unless the `mkdir` succeeded, and the `mv`
      targets the new location. */
  lemma MovedSpec(nas: Nas, filePath: string, recycleBin: string)
    ensures var (res, issued) := Moved(nas, filePath, recycleBin);
            var mkdir := MakeDirs(RecycleDir(filePath, recycleBin));
            var mv := Move(filePath, NewLocation(filePath, recycleBin));
            (res.success <==> nas.connected && nas.run(mkdir).success && nas.run(mv).success) &&
            (res.success <==> res.newLocation.Some?) &&
            (res.success <==> res.error.None?) &&
            (res.success ==> res.newLocation == Some(NewLocation(filePath, recycleBin))) &&
            (!nas.connected ==> res == MoveResult(false, None, Some(NotConnected)) && issued == []) &&
            (nas.connected ==> |issued| >= 1 && issued[0] == mkdir) &&
            (mv in issued <==> nas.connected && nas.run(mkdir).success) &&
            (forall c :: c in issued ==> c == mkdir || c == mv)
  {
  }

  method MoveToRecycleBin(nas: Nas, filePath: string, recycleBinPath: string)
    returns (result: MoveResult, issued: seq<Command>)
    ensures (result, issued) == Moved(nas, filePath, recycleBinPath)
  {
    issued := [];
    if !nas.connected {
      return MoveResult(false, None, Some(NotConnected)), issued;
    }
    var recycleDir := RecycleDir(filePath, recycleBinPath);
    var mkdir := nas.run(MakeDirs(recycleDir));
    issued := [MakeDirs(recycleDir)];
    if !mkdir.success {
      return MoveResult(false, None, Some(MkdirFailed + mkdir.error)), issued;
    }
    var newLocation := NewLocation(filePath, recycleBinPath);
    var mv := nas.run(Move(filePath, newLocation));
    issued := issued + [Move(filePath, newLocation)];
    assert issued == [MakeDirs(recycleDir), Move(filePath, newLocation)];
    if !mv.success {
      return MoveResult(false, None, Some(MoveFailed + mv.error)), issued;
    }
    result := MoveResult(true, Some(newLocation), None);
  }

  /** `restore_from_recycle_bin(recycle_location, original_path)`: its result
      and the commands it sends, in order. */
  function Restored(nas: Nas, recycleLocation: string, originalPath: string): (RestoreResult, seq<Command>)
  {
    if !nas.connected then (RestoreResult(false, Some(NotConnected)), [])
    else
      var mkdir := MakeDirs(DirName(originalPath));
      var mv := Move(recycleLocation, originalPath);
      if !nas.run(mkdir).success then
        (RestoreResult(false, Some(RestoreMkdirFailed + nas.run(mkdir).error)), [mkdir])
      else if !nas.run(mv).success then
        (RestoreResult(false, Some(RestoreFailed + nas.run(mv).error)), [mkdir, mv])
      else (RestoreResult(true, None), [mkdir, mv])
  }

  /** A restore re-creates the original's parent directory before moving the
      file back, succeeds exactly when both commands succeed, and carries an
      error message exactly when it fails. */
  lemma RestoredSpec(nas: Nas, recycleLocation: string, originalPath: string)
    ensures var (res, issued) := Restored(nas, recycleLocation, originalPath);
            var mkdir := MakeDirs(DirName(originalPath));
            var mv := Move(recycleLocation, originalPath);
            (res.success <==> nas.connected && nas.run(mkdir).success && nas.run(mv).success) &&
            (res.success <==> res.error.None?) &&
            (!nas.connected ==> res == RestoreResult(false, Some(NotConnected)) && issued == []) &&
            (nas.connected ==> |issued| >= 1 && issued[0] == mkdir) &&
            (mv in issued <==> nas.connected && nas.run(mkdir).success) &&
            (forall c :: c in issued ==> c == mkdir || c == mv)
  {
  }

  /** Restoring a moved file to where it came from sends the `mv` that
      reverses the move's `mv`, after re-creating the file's original folder. */
  lemma {:induction false} RestoreReversesMove(nas: Nas, later: Nas, filePath: string, recycleBin: string)
    requires Moved(nas, filePath, recycleBin).0.success
    requires later.connected && later.run(MakeDirs(DirName(filePath))).success
    ensures Moved(nas, filePath, recycleBin).0.newLocation == Some(NewLocation(filePath, recycleBin))
    ensures Moved(nas, filePath, recycleBin).1 ==
            [MakeDirs(RecycleDir(filePath, recycleBin)), Move(filePath, NewLocation(filePath, recycleBin))]
    ensures Restored(later, NewLocation(filePath, recycleBin), filePath).1 ==
            [MakeDirs(DirName(filePath)), Move(NewLocation(filePath, recycleBin), filePath)]
  {
    SuccessfulMove(nas, filePath, recycleBin);
    RestoreCommands(later, NewLocation(filePath, recycleBin), filePath);
  }

  lemma SuccessfulMove(nas: Nas, filePath: string, recycleBin: string)
    requires Moved(nas, filePath, recycleBin).0.success
    ensures Moved(nas, filePath, recycleBin).0.newLocation == Some(NewLocation(filePath, recycleBin))
    ensures Moved(nas, filePath, recycleBin).1 ==
            [MakeDirs(RecycleDir(filePath, recycleBin)), Move(filePath, NewLocation(filePath, recycleBin))]
  {
    var mkdir := MakeDirs(RecycleDir(filePath, recycleBin));
    var mv := Move(filePath, NewLocation(filePath, recycleBin));
    assert nas.connected && nas.run(mkdir).success && nas.run(mv).success;
  }

  lemma RestoreCommands(later: Nas, recycleLocation: string, originalPath: string)
    requires later.connected && later.run(MakeDirs(DirName(originalPath))).success
    ensures Restored(later, recycleLocation, originalPath).1 ==
            [MakeDirs(DirName(originalPath)), Move(recycleLocation, originalPath)]
  {
  }

  method RestoreFromRecycleBin(nas: Nas, recycleLocation: string, originalPath: string)
    returns (result: RestoreResult, issued: seq<Command>)
    ensures (result, issued) == Restored(nas, recycleLocation, originalPath)
  {
    issued := [];
    if !nas.connected {
      return RestoreResult(false, Some(NotConnected)), issued;
    }
    var originalDir := DirName(originalPath);
    var mkdir := nas.run(MakeDirs(originalDir));
    issued := [MakeDirs(originalDir)];
    if !mkdir.success {
      return RestoreResult(false, Some(RestoreMkdirFailed + mkdir.error)), issued;
    }
    var mv := nas.run(Move(recycleLocation, originalPath));
    issued := issued + [Move(recycleLocation, originalPath)];
    assert issued == [MakeDirs(originalDir), Move(recycleLocation, originalPath)];
    if !mv.success {
      return RestoreResult(false, Some(RestoreFailed + mv.error)), issued;
    }
    result := RestoreResult(true, None);
  }
}
