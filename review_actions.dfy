/** The review actions of `backend/review_actions.py`: ignoring a duplicate
    pair, deleting its backup copy into the recycle bin with an undo record,
    undoing the newest deletion of a session, and the per-session counts. The
    three SQLite tables become the fields of one store: the review queue as a
    map from row id to row, the ignored pairs as a set, and the undo stack as
    a sequence in insertion order. */
module ReviewActions {
  import opened Strings
  import opened Seqs
  import opened Shell
  import opened RecycleBin

  const NoRecycleBin := "Recycle bin not found. Cannot safely delete."
  const NothingToUndo := "Nothing to undo"
  const UndoRestoreFailed := "Failed to restore file: "
  const UndoneAction := "delete"

  /** The values the `action` column takes. */
  datatype Action = Ignored | Deleted

  /** The columns of a `review_queue` row that the actions read or write. */
  datatype QueueRow = QueueRow(sessionId: string, reviewed: bool, action: Option<Action>)

  /** A row of `undo_stack`; `recycleLocation` is empty for an entry without
      a file to restore. */
  datatype UndoEntry = UndoEntry(id: int, sessionId: string, reviewId: int,
                                 previousAction: Option<Action>, previousReviewed: bool,
                                 backupPath: string, originalLocation: string,
                                 recycleLocation: string)

  /** The dictionary `delete_duplicate` returns on success. */
  datatype UndoInfo = UndoInfo(undoId: int, reviewId: int, backupPath: string, recycleLocation: string)

  /** What `get_review_stats` returns. */
  datatype ReviewStats = ReviewStats(total: nat, reviewed: nat, remaining: int,
                                     deleted: nat, ignored: nat, completed: bool)

  /** `UPDATE review_queue SET reviewed = ?, action = ? WHERE id = ?`. */
  function SetRow(queue: map<int, QueueRow>, id: int, reviewed: bool, action: Option<Action>): (r: map<int, QueueRow>)
    ensures r.Keys == queue.Keys
    ensures id in queue ==> r[id] == queue[id].(reviewed := reviewed, action := action)
    ensures forall other :: other in queue && other != id ==> r[other] == queue[other]
  {
    if id in queue then queue[id := queue[id].(reviewed := reviewed, action := action)] else queue
  }

  /** Writing the same row twice is writing it once with the second values. */
  lemma {:induction false} SetRowTwice(queue: map<int, QueueRow>, id: int, r1: bool, a1: Option<Action>, r2: bool, a2: Option<Action>)
    ensures SetRow(SetRow(queue, id, r1, a1), id, r2, a2) == SetRow(queue, id, r2, a2)
  {
    var once := SetRow(queue, id, r2, a2);
    var twice := SetRow(SetRow(queue, id, r1, a1), id, r2, a2);
    assert twice.Keys == once.Keys;
    forall k | k in once
      ensures twice[k] == once[k]
    {
    }
  }

  /** Undo entry ids grow along the stack, so each id names one entry. */
  ghost predicate Increasing(stack: seq<UndoEntry>)
  {
    forall i, j :: 0 <= i < j < |stack| ==> stack[i].id < stack[j].id
  }

  /** The id SQLite gives the next inserted row: one more than the largest id
      in the table, or 1 when it is empty. */
  function NextUndoId(stack: seq<UndoEntry>): int
  {
    if stack == [] then 1 else stack[|stack| - 1].id + 1
  }

  /** The next id is larger than every id on the stack, so pushing an entry
      with it keeps the ids growing. */
  lemma {:induction false} PushKeepsIncreasing(stack: seq<UndoEntry>, entry: UndoEntry)
    requires Increasing(stack)
    requires entry.id == NextUndoId(stack)
    ensures forall k :: 0 <= k < |stack| ==> stack[k].id < entry.id
    ensures Increasing(stack + [entry])
  {
    var pushed := stack + [entry];
    forall i, j | 0 <= i < j < |pushed|
      ensures pushed[i].id < pushed[j].id
    {
      if j == |stack| && i < |stack| - 1 {
        assert stack[i].id < stack[|stack| - 1].id;
      }
    }
  }

  /** The position of the newest entry of `session`, or -1 when it has none:
      the row `ORDER BY timestamp DESC LIMIT 1` selects. */
  function NewestFor(stack: seq<UndoEntry>, session: string): (r: int)
    ensures -1 <= r < |stack|
    ensures r >= 0 ==> stack[r].sessionId == session
    ensures forall j :: r < j < |stack| ==> stack[j].sessionId != session
  {
    if stack == [] then -1
    else if stack[|stack| - 1].sessionId == session then |stack| - 1
    else NewestFor(stack[..|stack| - 1], session)
  }

  function OtherThan(id: int): UndoEntry -> bool
  {
    (e: UndoEntry) => e.id != id
  }

  /** `DELETE FROM undo_stack WHERE id = ?`. */
  function RemoveId(stack: seq<UndoEntry>, id: int): seq<UndoEntry>
  {
    Filter(stack, OtherThan(id))
  }

  /** In a stack with growing ids, deleting by the id of entry `k` removes
      exactly that entry and keeps the rest in order. */
  lemma {:induction false} RemoveIdRemovesOne(stack: seq<UndoEntry>, k: int)
    requires Increasing(stack)
    requires 0 <= k < |stack|
    ensures RemoveId(stack, stack[k].id) == stack[..k] + stack[k + 1..]
    ensures Increasing(RemoveId(stack, stack[k].id))
  {
    var p := OtherThan(stack[k].id);
    forall i | 0 <= i < |stack| && i != k
      ensures p(stack[i])
    {
      assert i < k ==> stack[i].id < stack[k].id;
      assert i > k ==> stack[k].id < stack[i].id;
    }
    FilterRemovesOne(stack, k, p);
    IncreasingWithout(stack, k);
  }

  /** Leaving one entry out keeps the ids growing. */
  lemma {:induction false} IncreasingWithout(stack: seq<UndoEntry>, k: int)
    requires Increasing(stack)
    requires 0 <= k < |stack|
    ensures Increasing(stack[..k] + stack[k + 1..])
  {
    var r := stack[..k] + stack[k + 1..];
    forall i, j | 0 <= i < j < |r|
      ensures r[i].id < r[j].id
    {
      var i' := if i < k then i else i + 1;
      var j' := if j < k then j else j + 1;
      assert r[i] == stack[i'] && r[j] == stack[j'];
    }
  }

  /** `'/' + '/'.join(path.split('/')[:3])`: the share root `delete_duplicate`
      looks for a recycle bin under. */
  function ShareRoot(path: string): string
  {
    [Sep] + JoinWith(Take(Split(path, Sep), 3), Sep)
  }

  /** For an absolute path the first split part is empty, so the share root
      begins with two separators: `/volume1/share/x.jpg` gives `//volume1/share`. */
  lemma {:induction false} ShareRootOfAbsolutePath(volume: string, share: string, rest: string)
    requires Sep !in volume && Sep !in share
    ensures ShareRoot([Sep] + volume + [Sep] + share + [Sep] + rest) == [Sep, Sep] + volume + [Sep] + share
  {
    var path := [Sep] + volume + [Sep] + share + [Sep] + rest;
    assert path == [] + [Sep] + (volume + [Sep] + (share + [Sep] + rest));
    SplitAfter([], volume + [Sep] + (share + [Sep] + rest), Sep);
    SplitAfter(volume, share + [Sep] + rest, Sep);
    SplitAfter(share, rest, Sep);
    var parts := Split(path, Sep);
    assert parts == [[]] + ([volume] + ([share] + Split(rest, Sep)));
    assert Take(parts, 3) == [[], volume, share];
    var top := [[], volume, share];
    assert top[1..] == [volume, share] && top[1..][1..] == [share];
    assert JoinWith([share], Sep) == share;
    assert JoinWith([volume, share], Sep) == volume + [Sep] + share;
    assert JoinWith(top, Sep) == [] + [Sep] + (volume + [Sep] + share);
  }

  /** The rows of one scan session. */
  function SessionRows(queue: map<int, QueueRow>, session: string): set<int>
  {
    set id | id in queue && queue[id].sessionId == session
  }

  function ReviewedRows(queue: map<int, QueueRow>, session: string): set<int>
  {
    set id | id in queue && queue[id].sessionId == session && queue[id].reviewed
  }

  function RowsWithAction(queue: map<int, QueueRow>, session: string, action: Action): set<int>
  {
    set id | id in queue && queue[id].sessionId == session && queue[id].action == Some(action)
  }

  /** A subset is no larger than its superset, and a proper subset is smaller. */
  lemma {:induction false} SubsetSize<T>(a: set<T>, b: set<T>)
    requires a <= b
    ensures |a| <= |b|
    ensures a < b ==> |a| < |b|
  {
    assert b == a + (b - a);
    assert a * (b - a) == {};
    if a < b {
      var x :| x in b && x !in a;
      assert x in b - a;
    }
  }

  /** `get_review_stats(scan_session_id)`. */
  function Stats(queue: map<int, QueueRow>, session: string): ReviewStats
  {
    var total := |SessionRows(queue, session)|;
    var reviewed := |ReviewedRows(queue, session)|;
    ReviewStats(total, reviewed, total - reviewed,
                |RowsWithAction(queue, session, Deleted)|,
                |RowsWithAction(queue, session, Ignored)|,
                reviewed == total)
  }

  /** The counts agree with each other: nothing remains below zero, the
      deleted and ignored rows are among the session's rows, and the session
      is completed exactly when every one of its rows is reviewed, which an
      empty session trivially is. */
  lemma {:induction false} StatsSpec(queue: map<int, QueueRow>, session: string)
    ensures var s := Stats(queue, session);
            s.reviewed <= s.total && s.remaining >= 0 &&
            s.remaining == s.total - s.reviewed &&
            s.deleted <= s.total && s.ignored <= s.total && s.deleted + s.ignored <= s.total &&
            (s.completed <==> s.remaining == 0) &&
            (s.completed <==> forall id :: id in queue && queue[id].sessionId == session ==> queue[id].reviewed)
  {
    var all := SessionRows(queue, session);
    var reviewed := ReviewedRows(queue, session);
    var deleted := RowsWithAction(queue, session, Deleted);
    var ignored := RowsWithAction(queue, session, Ignored);
    SubsetSize(reviewed, all);
    SubsetSize(deleted, all);
    SubsetSize(ignored, all);
    assert deleted * ignored == {};
    SubsetSize(deleted + ignored, all);
    if forall id :: id in queue && queue[id].sessionId == session ==> queue[id].reviewed {
      assert reviewed == all;
    } else {
      var id :| id in queue && queue[id].sessionId == session && !queue[id].reviewed;
      assert id in all && id !in reviewed;
      assert id in all - reviewed;
    }
  }

  /** The review state `backend/review_actions.py` reads and writes. */
  class ReviewStore {
    var queue: map<int, QueueRow>
    var ignoredPairs: set<(string, string)>
    var undoStack: seq<UndoEntry>

    ghost predicate Valid()
      reads this
    {
      Increasing(undoStack)
    }

    constructor (rows: map<int, QueueRow>)
      ensures queue == rows && ignoredPairs == {} && undoStack == []
      ensures Valid()
    {
      queue := rows;
      ignoredPairs := {};
      undoStack := [];
    }

    /** `ignore_duplicate`: marks the row reviewed and ignored and remembers
        the pair; it never pushes an undo entry. */
    method IgnoreDuplicate(reviewId: int, backupPath: string, sortedPath: string)
      returns (success: bool, error: Option<string>)
      requires Valid()
      modifies this
      ensures Valid()
      ensures success && error.None?
      ensures queue == SetRow(old(queue), reviewId, true, Some(Ignored))
      ensures ignoredPairs == old(ignoredPairs) + {(backupPath, sortedPath)}
      ensures undoStack == old(undoStack)
    {
      queue := SetRow(queue, reviewId, true, Some(Ignored));
      ignoredPairs := ignoredPairs + {(backupPath, sortedPath)};
      return true, None;
    }

    /** `delete_duplicate`: moves the backup copy into the share's recycle
        bin and, only when that worked, marks the row deleted and pushes an
        undo entry that records "unreviewed, no action" as the previous state,
        whatever the row held before. */
    method DeleteDuplicate(nas: Nas, reviewId: int, backupPath: string, sessionId: string)
      returns (success: bool, error: Option<string>, undo: Option<UndoInfo>)
      requires Valid()
      modifies this
      ensures Valid()
      ensures ignoredPairs == old(ignoredPairs)
      ensures var bin := Detected(nas, ShareRoot(backupPath));
              bin.None? ==>
                !success && error == Some(NoRecycleBin) && undo.None? &&
                queue == old(queue) && undoStack == old(undoStack)
      ensures var bin := Detected(nas, ShareRoot(backupPath));
              bin.Some? && !Moved(nas, backupPath, bin.value).0.success ==>
                !success && error == Moved(nas, backupPath, bin.value).0.error && undo.None? &&
                queue == old(queue) && undoStack == old(undoStack)
      ensures var bin := Detected(nas, ShareRoot(backupPath));
              bin.Some? && Moved(nas, backupPath, bin.value).0.success ==>
                var location := NewLocation(backupPath, bin.value);
                var id := NextUndoId(old(undoStack));
                success && error.None? &&
                undo == Some(UndoInfo(id, reviewId, backupPath, location)) &&
                queue == SetRow(old(queue), reviewId, true, Some(Deleted)) &&
                undoStack == old(undoStack) +
                  [UndoEntry(id, sessionId, reviewId, None, false, backupPath, backupPath, location)]
    {
      var failed, recycleLocation := RecycleFile(nas, backupPath);
      if failed {
        return false, recycleLocation, None;
      }
      undo := RecordDelete(reviewId, backupPath, sessionId, recycleLocation.value);
      success, error := true, None;
    }

    /** The database step of `delete_duplicate` once the file is in the bin:
        the row becomes reviewed and deleted, and an undo entry recording
        its earlier state (unreviewed, no action) and the file's new
        location is pushed. */
    method RecordDelete(reviewId: int, backupPath: string, sessionId: string, location: string)
      returns (undo: Option<UndoInfo>)
      requires Valid()
      modifies this
      ensures Valid()
      ensures ignoredPairs == old(ignoredPairs)
      ensures var id := NextUndoId(old(undoStack));
              undo == Some(UndoInfo(id, reviewId, backupPath, location)) &&
              queue == SetRow(old(queue), reviewId, true, Some(Deleted)) &&
              undoStack == old(undoStack) + [UndoEntry(id, sessionId, reviewId, None, false, backupPath, backupPath, location)]
    {
      queue := SetRow(queue, reviewId, true, Some(Deleted));
      var undoId := NextUndoId(undoStack);
      var entry := UndoEntry(undoId, sessionId, reviewId, None, false, backupPath, backupPath, location);
      PushKeepsIncreasing(undoStack, entry);
      undoStack := undoStack + [entry];
      undo := Some(UndoInfo(undoId, reviewId, backupPath, location));
    }

    /** `undo_last_action`: takes the session's newest undo entry, moves its
        file back when it has one, and only when that worked restores the
        row's recorded state and drops exactly that entry. */
    method UndoLastAction(nas: Nas, sessionId: string)
      returns (success: bool, error: Option<string>, actionType: Option<string>)
      requires Valid()
      modifies this
      ensures Valid()
      ensures ignoredPairs == old(ignoredPairs)
      ensures NewestFor(old(undoStack), sessionId) < 0 ==>
                !success && error == Some(NothingToUndo) && actionType.None? &&
                queue == old(queue) && undoStack == old(undoStack)
      ensures var k := NewestFor(old(undoStack), sessionId);
              k >= 0 && RestoreFails(nas, old(undoStack)[k]) ==>
                !success && actionType.None? &&
                error == Some(UndoRestoreFailed + ErrorText(Restored(nas, old(undoStack)[k].recycleLocation,
                                                                    old(undoStack)[k].originalLocation).0.error)) &&
                queue == old(queue) && undoStack == old(undoStack)
      ensures var k := NewestFor(old(undoStack), sessionId);
              k >= 0 && !RestoreFails(nas, old(undoStack)[k]) ==>
                var entry := old(undoStack)[k];
                success && error.None? && actionType == Some(UndoneAction) &&
                queue == SetRow(old(queue), entry.reviewId, entry.previousReviewed, entry.previousAction) &&
                undoStack == old(undoStack)[..k] + old(undoStack)[k + 1..]
    {
      var k := NewestFor(undoStack, sessionId);
      if k < 0 {
        return false, Some(NothingToUndo), None;
      }
      var entry := undoStack[k];
      var restoreError := RestoreEntry(nas, entry);
      if restoreError.Some? {
        return false, restoreError, None;
      }
      queue := SetRow(queue, entry.reviewId, entry.previousReviewed, entry.previousAction);
      RemoveIdRemovesOne(undoStack, k);
      undoStack := RemoveId(undoStack, entry.id);
      return true, None, Some(UndoneAction);
    }

    /** `get_review_stats`: reads the queue and changes nothing. */
    method GetReviewStats(session: string) returns (stats: ReviewStats)
      ensures stats == Stats(queue, session)
      ensures stats.remaining >= 0
      ensures stats.completed <==> forall id :: id in queue && queue[id].sessionId == session ==> queue[id].reviewed
    {
      StatsSpec(queue, session);
      stats := Stats(queue, session);
    }
  }

  /** The restore step of `undo_last_action`: an entry that names a file in
      the bin moves it back, and a failed move yields the error to report. */
  method RestoreEntry(nas: Nas, entry: UndoEntry) returns (error: Option<string>)
    ensures error.Some? <==> RestoreFails(nas, entry)
    ensures error.Some? ==>
              error.value == UndoRestoreFailed + ErrorText(Restored(nas, entry.recycleLocation, entry.originalLocation).0.error)
  {
    error := None;
    if entry.recycleLocation != "" {
      var restored, _ := RestoreFromRecycleBin(nas, entry.recycleLocation, entry.originalLocation);
      if !restored.success {
        error := Some(UndoRestoreFailed + ErrorText(restored.error));
      }
    }
  }

  /** The file step of `delete_duplicate`: finds the bin of the file's share
      and moves the file into it. On failure `result` is the error to report;
      otherwise it is the file's new location. */
  method RecycleFile(nas: Nas, backupPath: string) returns (failed: bool, result: Option<string>)
    ensures var bin := Detected(nas, ShareRoot(backupPath));
            bin.None? ==> failed && result == Some(NoRecycleBin)
    ensures var bin := Detected(nas, ShareRoot(backupPath));
            bin.Some? && !Moved(nas, backupPath, bin.value).0.success ==>
              failed && result == Moved(nas, backupPath, bin.value).0.error
    ensures var bin := Detected(nas, ShareRoot(backupPath));
            bin.Some? && Moved(nas, backupPath, bin.value).0.success ==>
              !failed && result == Some(NewLocation(backupPath, bin.value))
  {
    var backupRoot := ShareRoot(backupPath);
    var recycleBin := DetectRecycleBin(nas, backupRoot);
    DetectedNotEmpty(nas, backupRoot);
    if recycleBin.None? || recycleBin.value == "" {
      assert recycleBin.None?;
      return true, Some(NoRecycleBin);
    }
    var moved, _ := MoveToRecycleBin(nas, backupPath, recycleBin.value);
    MovedSpec(nas, backupPath, recycleBin.value);
    assert moved == Moved(nas, backupPath, recycleBin.value).0;
    if !moved.success {
      return true, moved.error;
    }
    return false, moved.newLocation;
  }

  /** The entry names a file in the bin and moving it back fails. */
  predicate RestoreFails(nas: Nas, entry: UndoEntry)
  {
    entry.recycleLocation != "" &&
    !Restored(nas, entry.recycleLocation, entry.originalLocation).0.success
  }

  /** How Python's f-string prints an optional message. */
  function ErrorText(error: Option<string>): string
  {
    if error.Some? then error.value else "None"
  }

  /** A detected bin is never the empty string, so `not recycle_bin` holds
      exactly when detection found nothing. */
  lemma {:induction false} DetectedNotEmpty(nas: Nas, shareRoot: string)
    ensures Detected(nas, shareRoot).Some? ==> Detected(nas, shareRoot).value != ""
  {
    if Detected(nas, shareRoot).Some? {
      var bin := Detected(nas, shareRoot).value;
      DetectedUnderShareRoot(nas, shareRoot);
      var name := Basename(bin);
      assert |name| == 8 by {
        assert name == "#recycle" || name == "@Recycle" || name == "@recycle" || name == ".recycle";
      }
      assert EndsWith(bin, name);
    }
  }

  /** Undoing right after a delete in the same session picks the entry that
      delete pushed and removing it gives back the stack as it was; the row
      comes back unreviewed with no action, which is its earlier state only
      when it had not been reviewed before. */
  lemma {:induction false} UndoAfterDelete(stack: seq<UndoEntry>, queue: map<int, QueueRow>, sessionId: string,
                        reviewId: int, backupPath: string, location: string)
    requires Increasing(stack)
    ensures var e := UndoEntry(NextUndoId(stack), sessionId, reviewId, None, false, backupPath, backupPath, location);
            var pushed := stack + [e];
            NewestFor(pushed, sessionId) == |stack| &&
            RemoveId(pushed, e.id) == stack &&
            SetRow(SetRow(queue, reviewId, true, Some(Deleted)), reviewId, e.previousReviewed, e.previousAction) ==
              SetRow(queue, reviewId, false, None)
    ensures reviewId in queue && !queue[reviewId].reviewed && queue[reviewId].action.None? ==>
            SetRow(queue, reviewId, false, None) == queue
  {
    var e := UndoEntry(NextUndoId(stack), sessionId, reviewId, None, false, backupPath, backupPath, location);
    PushThenRemove(stack, e);
    SetRowTwice(queue, reviewId, true, Some(Deleted), false, None);
    if reviewId in queue && !queue[reviewId].reviewed && queue[reviewId].action.None? {
      SetRowSame(queue, reviewId, false, None);
    }
  }

  /** The entry just pushed is the newest for its session, and removing it by
      its id gives back the stack as it was. */
  lemma {:induction false} PushThenRemove(stack: seq<UndoEntry>, e: UndoEntry)
    requires Increasing(stack) && e.id == NextUndoId(stack)
    ensures NewestFor(stack + [e], e.sessionId) == |stack|
    ensures RemoveId(stack + [e], e.id) == stack
  {
    var pushed := stack + [e];
    PushKeepsIncreasing(stack, e);
    RemoveIdRemovesOne(pushed, |stack|);
    assert pushed[|stack|] == e;
    assert pushed[..|stack|] == stack && pushed[|stack| + 1..] == [];
  }

  /** Writing a row's own values back leaves the queue as it was. */
  lemma {:induction false} SetRowSame(queue: map<int, QueueRow>, id: int, reviewed: bool, action: Option<Action>)
    requires id in queue && queue[id].reviewed == reviewed && queue[id].action == action
    ensures SetRow(queue, id, reviewed, action) == queue
  {
    var r := SetRow(queue, id, reviewed, action);
    assert r[id] == queue[id];
    assert forall k :: k in queue ==> r[k] == queue[k];
  }

  /** Ignoring the same pair again changes nothing further. */
  lemma {:induction false} IgnoreIdempotent(queue: map<int, QueueRow>, pairs: set<(string, string)>,
                         reviewId: int, backupPath: string, sortedPath: string)
    ensures SetRow(SetRow(queue, reviewId, true, Some(Ignored)), reviewId, true, Some(Ignored)) ==
            SetRow(queue, reviewId, true, Some(Ignored))
    ensures pairs + {(backupPath, sortedPath)} + {(backupPath, sortedPath)} == pairs + {(backupPath, sortedPath)}
  {
    SetRowTwice(queue, reviewId, true, Some(Ignored), true, Some(Ignored));
  }
}
