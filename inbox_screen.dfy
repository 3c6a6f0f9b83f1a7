/** The inbox of `frontend/src/screens/InboxScreen.jsx`: the list of
    unreviewed duplicate pairs and the list of ignored ones, the tab and image
    selection, the ignore / delete / undo / unignore actions and the keyboard
    shortcuts. Each asynchronous handler is split into the event that starts it
    (the guard, the request it sends) and the event that delivers its
    response; the response is applied to the values the handler's closure
    captured when it started, as the component does. */
module InboxScreen {
  import opened Seqs
  import opened Shell

  datatype Tab = Duplicates | IgnoredTab | Missing

  /** `selectedImage`: null, 'backup' or 'kept'. */
  datatype Selection = NoImage | Backup | Kept

  /** A pair as `/api/scan/duplicates` lists it; a null action is `None`. */
  datatype Pair = Pair(id: int, backupPath: string, sortedPath: string, reviewed: bool, action: Option<string>)

  datatype Settings = Settings(backupPath: string, sortedPath: string, recycleBinPath: string)

  /** The panels a 300 ms timeout opens. */
  datatype Panel = HelpPanel | SettingsPanel

  /** The element a key press is aimed at. */
  datatype Target = InputElement | TextAreaElement | OtherElement

  datatype Key = Escape | ArrowLeft | ArrowRight | Char(c: char) | OtherKey

  /** The requests the actions send. */
  datatype Request =
    | IgnoreRequest(reviewId: int, backupPath: string, sortedPath: string, sessionId: Option<string>)
    | DeleteRequest(reviewId: int, backupPath: string, sortedPath: string, sessionId: Option<string>,
                    recycleBinPath: string)
    | UndoRequest(session: string)
    | UnignoreRequest(reviewId: int, sessionId: Option<string>)
    | ScanRequest(backupPath: string, sortedPath: string)

  /** The answer to an action request: accepted, refused with a `detail`
      ("" when absent), or an exception with its message. */
  datatype ActionResponse = Accepted | Refused(detail: string) | Thrown(message: string)

  /** The answer to `GET /api/scan/duplicates`: an exception, or the body
      with its `error` ("" when absent) and its `pairs` ([] when absent). */
  datatype ListResponse = ListThrown(message: string) | Listed(error: string, pairs: seq<Pair>)

  /** The answer to `POST /api/scan/start`. */
  datatype ScanResponse = ScanThrown(message: string) | ScanAnswered(success: bool, sessionId: string, error: string)

  /** The removal an ignore or delete performs once its request succeeds. */
  datatype RemovalKind = IgnoreRemoval | DeleteRemoval

  /** The action in progress and the values its handler captured. */
  datatype Pending =
    | NoAction
    | Removal(kind: RemovalKind, pairs: seq<Pair>, index: int)
    | Undoing(sessionId: string)
    | Unignoring(session: Option<string>)

  const IgnoredAction := "ignored"
  const ConfigurePaths := "Please configure paths in settings first (press S)"

  // ---------------------------------------------------------------------------
  // The pure rules

  /** `cycleTab`'s updater: duplicates, then ignored, then missing, then back. */
  function CycledTab(t: Tab): (r: Tab)
    ensures r != t
  {
    match t
    case Duplicates => IgnoredTab
    case IgnoredTab => Missing
    case Missing => Duplicates
  }

  /** Three presses of `c` come back to the starting tab, passing through the
      two others on the way. */
  lemma CycleTabThrice(t: Tab)
    ensures CycledTab(CycledTab(CycledTab(t))) == t
    ensures CycledTab(CycledTab(t)) != t && CycledTab(CycledTab(t)) != CycledTab(t)
  {
  }

  /** `handlePrevious`: nothing selected or the backup selected gives the
      backup; the kept image stays selected. */
  function PreviousSelection(s: Selection): (r: Selection)
    ensures r != NoImage
    ensures s != NoImage ==> r == s
  {
    match s
    case NoImage => Backup
    case Backup => Backup
    case Kept => Kept
  }

  /** `handleNext`: nothing selected or the kept image selected gives the kept
      image; the backup stays selected. */
  function NextSelection(s: Selection): (r: Selection)
    ensures r != NoImage
    ensures s != NoImage ==> r == s
  {
    match s
    case NoImage => Kept
    case Kept => Kept
    case Backup => Backup
  }

  /** The selection after a run of arrow presses (`true` for left). */
  function AfterArrows(s: Selection, lefts: seq<bool>): Selection
    decreases |lefts|
  {
    if lefts == [] then s
    else AfterArrows(if lefts[0] then PreviousSelection(s) else NextSelection(s), lefts[1..])
  }

  /** The arrows only choose the first image: once one is selected, no run of
      arrow presses changes it, and from nothing selected the first arrow
      decides (left the backup, right the kept image). */
  lemma {:induction false} ArrowsKeepSelection(s: Selection, lefts: seq<bool>)
    ensures s != NoImage ==> AfterArrows(s, lefts) == s
    ensures s == NoImage && lefts != [] ==>
            AfterArrows(s, lefts) == (if lefts[0] then Backup else Kept)
    decreases |lefts|
  {
    if lefts != [] {
      var next := if lefts[0] then PreviousSelection(s) else NextSelection(s);
      ArrowsKeepSelection(next, lefts[1..]);
    }
  }

  predicate NotReviewed(p: Pair) { !p.reviewed }

  predicate IsIgnored(p: Pair) { p.reviewed && p.action == Some(IgnoredAction) }

  function NotReviewedTest(): Pair -> bool { p => NotReviewed(p) }

  function IsIgnoredTest(): Pair -> bool { p => IsIgnored(p) }

  /** The duplicates list: the fetched pairs not yet reviewed, in order. */
  function Unreviewed(pairs: seq<Pair>): seq<Pair>
  {
    Filter(pairs, NotReviewedTest())
  }

  /** The ignored list: the reviewed pairs whose action is 'ignored'. */
  function IgnoredOf(pairs: seq<Pair>): seq<Pair>
  {
    Filter(pairs, IsIgnoredTest())
  }

  /** The two lists take exactly their own pairs from the response, in order,
      and no pair is on both. */
  lemma {:induction false} PairListsSpec(pairs: seq<Pair>)
    ensures forall p :: p in Unreviewed(pairs) <==> p in pairs && !p.reviewed
    ensures forall p :: p in IgnoredOf(pairs) <==> p in pairs && p.reviewed && p.action == Some(IgnoredAction)
    ensures forall k :: 0 <= k < |Unreviewed(pairs)| ==> !Unreviewed(pairs)[k].reviewed
    ensures forall k :: 0 <= k < |IgnoredOf(pairs)| ==> IsIgnored(IgnoredOf(pairs)[k])
    ensures forall p :: p in Unreviewed(pairs) ==> p !in IgnoredOf(pairs)
  {
    FilterMembers(pairs, NotReviewedTest());
    FilterMembers(pairs, IsIgnoredTest());
    FilterAll(pairs, NotReviewedTest());
    FilterAll(pairs, IsIgnoredTest());
  }

  /** `pairs.filter((_, idx) => idx !== index)`. */
  function RemoveAt(pairs: seq<Pair>, index: int): (r: seq<Pair>)
    requires 0 <= index < |pairs|
    ensures |r| == |pairs| - 1
    ensures forall k :: 0 <= k < index ==> r[k] == pairs[k]
    ensures forall k :: index <= k < |r| ==> r[k] == pairs[k + 1]
    ensures multiset(r) + multiset{pairs[index]} == multiset(pairs)
  {
    assert pairs == pairs[..index] + [pairs[index]] + pairs[index + 1..];
    pairs[..index] + pairs[index + 1..]
  }

  /** The index after a removal: moved onto the new last pair when it ran past
      the end of a list that is not empty. */
  function ClampedIndex(index: int, length: nat): int
  {
    if index >= length && length > 0 then length - 1 else index
  }

  /** After removing the current pair the index points into the shorter list
      unless it is empty: at the pair that followed the removed one, or, when
      the last pair was removed, at the new last pair. */
  lemma RemovalSelectsNeighbour(pairs: seq<Pair>, index: int)
    requires 0 <= index < |pairs|
    ensures var r := RemoveAt(pairs, index);
            var j := ClampedIndex(index, |r|);
            (r == [] || 0 <= j < |r|) &&
            (index < |r| ==> j == index && r[j] == pairs[index + 1]) &&
            (index == |r| && r != [] ==> j == index - 1 && r[j] == pairs[index - 1])
  {
  }

  /** The error `loadDuplicates` shows for a duplicates response: the
      exception's message, the body's `error`, or none. */
  function ListError(listed: ListResponse): Option<string>
  {
    match listed
    case ListThrown(m) => Some("Failed to load duplicates: " + m)
    case Listed(e, _) => if e != "" then Some(e) else None
  }

  /** The duplicates list `loadDuplicates` leaves: the unreviewed pairs of an
      answer without an error, and no pairs otherwise. */
  function ListedPairs(listed: ListResponse): (r: seq<Pair>)
    ensures ListError(listed).Some? ==> r == []
    ensures forall k :: 0 <= k < |r| ==> !r[k].reviewed
    ensures listed.Listed? && listed.error == "" ==>
            forall p :: p in r <==> p in listed.pairs && !p.reviewed
  {
    if listed.Listed? && listed.error == "" then
      PairListsSpec(listed.pairs);
      Unreviewed(listed.pairs)
    else []
  }

  /** `hasSettings`: every one of the three paths is filled in. */
  predicate HasSettings(s: Settings)
  {
    s.backupPath != "" && s.sortedPath != "" && s.recycleBinPath != ""
  }

  /** `localStorage.getItem(key) || ''`. */
  function Stored(storage: map<string, string>, key: string): string
  {
    if key in storage then storage[key] else ""
  }

  /** `loadSettings`: the three paths as stored. */
  function StoredSettings(storage: map<string, string>): (r: Settings)
    ensures HasSettings(r) <==>
            (forall key :: key in ["backupPath", "sortedPath", "recycleBinPath"] ==>
               key in storage && storage[key] != "")
  {
    Settings(Stored(storage, "backupPath"), Stored(storage, "sortedPath"), Stored(storage, "recycleBinPath"))
  }

  /** The alert text of a failed ignore. */
  function IgnoreAlert(response: ActionResponse): string
  {
    "Error ignoring duplicate: " + if response.Thrown? then response.message else "Failed to ignore duplicate"
  }

  /** The alert text of a failed delete, which reads the refusal's `detail`. */
  function DeleteAlert(response: ActionResponse): string
  {
    "Error deleting duplicate: " +
      match response
      case Thrown(m) => m
      case Refused(d) => if d != "" then d else "Failed to delete duplicate"
      case Accepted => ""
  }

  function UndoAlert(response: ActionResponse): string
  {
    "Error undoing: " +
      match response
      case Thrown(m) => m
      case Refused(d) => if d != "" then d else "Nothing to undo"
      case Accepted => ""
  }

  function UnignoreAlert(response: ActionResponse): string
  {
    "Error unignoring: " + if response.Thrown? then response.message else "Failed to unignore duplicate"
  }

  // ---------------------------------------------------------------------------
  // The screen's state machine

  class Inbox {
    var activeTab: Tab
    var currentIndex: int
    var duplicatePairs: seq<Pair>
    var ignoredPairs: seq<Pair>
    var error: Option<string>
    var actionInProgress: bool
    var scanning: bool
    var settingsOpen: bool
    var showHelp: bool
    var scanSessionId: Option<string>
    var selectedImage: Selection
    var settings: Settings
    /** The browser's local storage. */
    var storage: map<string, string>
    /** The panels 300 ms timeouts will open, oldest first. */
    var scheduled: seq<Panel>
    /** The action requests sent, oldest first. */
    var sent: seq<Request>
    /** The alerts shown, oldest first. */
    var alerts: seq<string>
    /** The action whose response is awaited, with its captured values. */
    var pending: Pending

    ghost predicate Valid()
      reads this`currentIndex, this`actionInProgress, this`pending, this`duplicatePairs, this`ignoredPairs
    {
      && currentIndex >= 0
      && (actionInProgress <==> !pending.NoAction?)
      && (duplicatePairs == [] || currentIndex < |duplicatePairs|)
      && (forall k :: 0 <= k < |duplicatePairs| ==> !duplicatePairs[k].reviewed)
      && (forall k :: 0 <= k < |ignoredPairs| ==> IsIgnored(ignoredPairs[k]))
      && (pending.Removal? ==>
            && 0 <= pending.index < |pending.pairs|
            && (forall k :: 0 <= k < |pending.pairs| ==> !pending.pairs[k].reviewed)
            && (currentIndex == pending.index || currentIndex == 0))
      && (pending.Undoing? ==> pending.sessionId != "")
    }

    /** A session id that `loadDuplicates` and `loadIgnored` act on. */
    static predicate SessionOf(session: Option<string>)
    {
      session.Some? && session.value != ""
    }

    /** `currentPair`: the pair at the current index, if there is one. */
    function CurrentPair(): Option<Pair>
      reads this
    {
      if 0 <= currentIndex < |duplicatePairs| then Some(duplicatePairs[currentIndex]) else None
    }

    /** `currentIgnoredPair`: the ignored pair at the (shared) current index. */
    function CurrentIgnoredPair(): Option<Pair>
      reads this
    {
      if 0 <= currentIndex < |ignoredPairs| then Some(ignoredPairs[currentIndex]) else None
    }

    /** Mounting: the settings come from storage, and the last session, when
        one is stored, becomes the current one (its list arrives with
        `LoadDuplicates`). */
    constructor (store: map<string, string>)
      ensures Valid()
      ensures settings == StoredSettings(store) && storage == store
      ensures scanSessionId == (if Stored(store, "lastScanSessionId") != "" then Some(Stored(store, "lastScanSessionId")) else None)
      ensures activeTab == Duplicates && currentIndex == 0 && duplicatePairs == [] && ignoredPairs == []
      ensures !actionInProgress && pending == NoAction && selectedImage == NoImage
    {
      activeTab := Duplicates;
      currentIndex := 0;
      duplicatePairs := [];
      ignoredPairs := [];
      error := None;
      actionInProgress := false;
      scanning := false;
      settingsOpen := false;
      showHelp := false;
      selectedImage := NoImage;
      storage := store;
      scheduled := [];
      sent := [];
      alerts := [];
      pending := NoAction;
      settings := StoredSettings(store);
      var last := Stored(store, "lastScanSessionId");
      scanSessionId := if last != "" then Some(last) else None;
    }

    /** `loadDuplicates(sessionId)` with the two list responses it awaits (the
        duplicates and, through `loadIgnored`, the ignored pairs). Nothing
        happens without a session. */
    method LoadDuplicates(sessionId: Option<string>, listed: ListResponse, ignored: ListResponse)
      requires Valid()
      modifies this`duplicatePairs, this`ignoredPairs, this`currentIndex, this`selectedImage, this`error
      ensures Valid()
      ensures sessionId.None? || sessionId.value == "" ==>
                duplicatePairs == old(duplicatePairs) && ignoredPairs == old(ignoredPairs) &&
                currentIndex == old(currentIndex) && error == old(error) && selectedImage == old(selectedImage)
      ensures sessionId.Some? && sessionId.value != "" ==>
                && duplicatePairs == ListedPairs(listed)
                && error == ListError(listed)
                && selectedImage == NoImage
                && currentIndex == (if ListError(listed).None? then 0 else old(currentIndex))
                && ignoredPairs == (if listed.Listed? && ignored.Listed? && ignored.error == ""
                                    then IgnoredOf(ignored.pairs) else old(ignoredPairs))
      ensures pending == old(pending) && actionInProgress == old(actionInProgress)
      ensures sent == old(sent) && alerts == old(alerts) && activeTab == old(activeTab)
      ensures settings == old(settings) && storage == old(storage) && scanSessionId == old(scanSessionId)
    {
      if sessionId.None? || sessionId.value == "" {
        return;
      }
      selectedImage := NoImage;
      ApplyListed(listed);
      if listed.Listed? {
        LoadIgnored(sessionId, ignored);
      }
    }

    /** The part of `loadDuplicates` that handles the duplicates response. */
    method ApplyListed(listed: ListResponse)
      requires Valid()
      modifies this`duplicatePairs, this`currentIndex, this`error
      ensures Valid()
      ensures duplicatePairs == ListedPairs(listed) && error == ListError(listed)
      ensures currentIndex == (if ListError(listed).None? then 0 else old(currentIndex))
      ensures ignoredPairs == old(ignoredPairs) && selectedImage == old(selectedImage)
      ensures pending == old(pending) && actionInProgress == old(actionInProgress)
      ensures sent == old(sent) && alerts == old(alerts) && activeTab == old(activeTab)
      ensures settings == old(settings) && storage == old(storage) && scanSessionId == old(scanSessionId)
    {
      error := ListError(listed);
      if listed.Listed? && listed.error == "" {
        PairListsSpec(listed.pairs);
        duplicatePairs := Unreviewed(listed.pairs);
        currentIndex := 0;
      } else {
        duplicatePairs := [];
      }
    }

    /** `loadIgnored(sessionId)`: replaces the ignored list only on an answer
        without an error. */
    method LoadIgnored(sessionId: Option<string>, ignored: ListResponse)
      requires Valid()
      modifies this`ignoredPairs
      ensures Valid()
      ensures ignoredPairs == if sessionId.Some? && sessionId.value != "" && ignored.Listed? && ignored.error == ""
                              then IgnoredOf(ignored.pairs) else old(ignoredPairs)
      ensures duplicatePairs == old(duplicatePairs) && currentIndex == old(currentIndex)
      ensures selectedImage == old(selectedImage) && error == old(error)
      ensures pending == old(pending) && actionInProgress == old(actionInProgress)
      ensures sent == old(sent) && alerts == old(alerts) && activeTab == old(activeTab)
      ensures settings == old(settings) && storage == old(storage) && scanSessionId == old(scanSessionId)
    {
      if sessionId.Some? && sessionId.value != "" && ignored.Listed? && ignored.error == "" {
        PairListsSpec(ignored.pairs);
        ignoredPairs := IgnoredOf(ignored.pairs);
      }
    }

    /** `handleIgnore` up to its request: nothing happens without a current
        pair or while another action is in progress. */
    method StartIgnore() returns (started: bool)
      requires Valid()
      modifies this
      ensures Valid()
      ensures started <==> old(CurrentPair()).Some? && !old(actionInProgress)
      ensures !started ==> pending == old(pending) && sent == old(sent) && actionInProgress == old(actionInProgress)
      ensures started ==>
                var p := old(CurrentPair()).value;
                && actionInProgress
                && pending == Removal(IgnoreRemoval, old(duplicatePairs), old(currentIndex))
                && sent == old(sent) + [IgnoreRequest(p.id, p.backupPath, p.sortedPath, old(scanSessionId))]
      ensures duplicatePairs == old(duplicatePairs) && currentIndex == old(currentIndex)
      ensures ignoredPairs == old(ignoredPairs) && alerts == old(alerts)
    {
      started := StartRemoval(IgnoreRemoval);
    }

    /** `handleDelete` up to its request, which also names the recycle bin
        from the settings. */
    method StartDelete() returns (started: bool)
      requires Valid()
      modifies this
      ensures Valid()
      ensures started <==> old(CurrentPair()).Some? && !old(actionInProgress)
      ensures !started ==> pending == old(pending) && sent == old(sent) && actionInProgress == old(actionInProgress)
      ensures started ==>
                var p := old(CurrentPair()).value;
                && actionInProgress
                && pending == Removal(DeleteRemoval, old(duplicatePairs), old(currentIndex))
                && sent == old(sent) + [DeleteRequest(p.id, p.backupPath, p.sortedPath, old(scanSessionId),
                                                      old(settings).recycleBinPath)]
      ensures duplicatePairs == old(duplicatePairs) && currentIndex == old(currentIndex)
      ensures ignoredPairs == old(ignoredPairs) && alerts == old(alerts)
    {
      started := StartRemoval(DeleteRemoval);
    }

    method StartRemoval(kind: RemovalKind) returns (started: bool)
      requires Valid()
      modifies this
      ensures Valid()
      ensures started <==> old(CurrentPair()).Some? && !old(actionInProgress)
      ensures !started ==> pending == old(pending) && sent == old(sent) && actionInProgress == old(actionInProgress)
      ensures started ==>
                var p := old(CurrentPair()).value;
                && actionInProgress
                && pending == Removal(kind, old(duplicatePairs), old(currentIndex))
                && sent == old(sent) + [match kind
                                        case IgnoreRemoval => IgnoreRequest(p.id, p.backupPath, p.sortedPath, old(scanSessionId))
                                        case DeleteRemoval => DeleteRequest(p.id, p.backupPath, p.sortedPath, old(scanSessionId),
                                                                            old(settings).recycleBinPath)]
      ensures duplicatePairs == old(duplicatePairs) && currentIndex == old(currentIndex)
      ensures ignoredPairs == old(ignoredPairs) && alerts == old(alerts)
    {
      var current := CurrentPair();
      if current.None? || actionInProgress {
        return false;
      }
      var p := current.value;
      actionInProgress := true;
      var request := match kind
        case IgnoreRemoval => IgnoreRequest(p.id, p.backupPath, p.sortedPath, scanSessionId)
        case DeleteRemoval => DeleteRequest(p.id, p.backupPath, p.sortedPath, scanSessionId, settings.recycleBinPath);
      sent := sent + [request];
      pending := Removal(kind, duplicatePairs, currentIndex);
      return true;
    }

    /** The response to an ignore or delete: on success exactly the pair that
        was current when the action started is removed from the list the
        handler captured, the image selection is cleared and the index is
        clamped; on failure only an alert is shown. Either way the action is
        over. */
    method FinishRemoval(response: ActionResponse)
      requires Valid() && pending.Removal?
      modifies this
      ensures Valid()
      ensures !actionInProgress && pending == NoAction
      ensures var kind := old(pending).kind;
              var pairs := old(pending).pairs;
              var index := old(pending).index;
              response.Accepted? ==>
                && duplicatePairs == RemoveAt(pairs, index)
                && selectedImage == NoImage
                && currentIndex == (if index >= |pairs| - 1 && |pairs| > 1 then |pairs| - 2 else old(currentIndex))
                && alerts == old(alerts)
      ensures !response.Accepted? ==>
                && duplicatePairs == old(duplicatePairs) && currentIndex == old(currentIndex)
                && alerts == old(alerts) + [if old(pending).kind == IgnoreRemoval then IgnoreAlert(response) else DeleteAlert(response)]
      ensures ignoredPairs == old(ignoredPairs) && sent == old(sent) && activeTab == old(activeTab)
    {
      var kind, pairs, index := pending.kind, pending.pairs, pending.index;
      if response.Accepted? {
        var newPairs := RemoveAt(pairs, index);
        duplicatePairs := newPairs;
        selectedImage := NoImage;
        if index >= |newPairs| && |newPairs| > 0 {
          currentIndex := |newPairs| - 1;
        }
      } else {
        alerts := alerts + [if kind == IgnoreRemoval then IgnoreAlert(response) else DeleteAlert(response)];
      }
      actionInProgress := false;
      pending := NoAction;
    }

    /** `handleUndo` up to its request: nothing happens while an action is in
        progress or without a session. */
    method StartUndo() returns (started: bool)
      requires Valid()
      modifies this
      ensures Valid()
      ensures started <==> !old(actionInProgress) && old(scanSessionId).Some? && old(scanSessionId).value != ""
      ensures !started ==> pending == old(pending) && sent == old(sent) && actionInProgress == old(actionInProgress)
      ensures started ==>
                actionInProgress && pending == Undoing(old(scanSessionId).value) &&
                sent == old(sent) + [UndoRequest(old(scanSessionId).value)]
      ensures duplicatePairs == old(duplicatePairs) && currentIndex == old(currentIndex)
      ensures ignoredPairs == old(ignoredPairs) && alerts == old(alerts)
    {
      if actionInProgress || scanSessionId.None? || scanSessionId.value == "" {
        return false;
      }
      actionInProgress := true;
      sent := sent + [UndoRequest(scanSessionId.value)];
      pending := Undoing(scanSessionId.value);
      return true;
    }

    /** The response to an undo: on success both lists are reloaded for the
        session, otherwise an alert is shown. */
    method FinishUndo(response: ActionResponse, listed: ListResponse, ignored: ListResponse)
      requires Valid() && pending.Undoing?
      modifies this`duplicatePairs, this`ignoredPairs, this`currentIndex, this`selectedImage, this`error,
              this`alerts, this`actionInProgress, this`pending
      ensures Valid()
      ensures !actionInProgress && pending == NoAction
      ensures response.Accepted? ==>
                && duplicatePairs == ListedPairs(listed)
                && error == ListError(listed)
                && selectedImage == NoImage
                && currentIndex == (if ListError(listed).None? then 0 else old(currentIndex))
                && ignoredPairs == (if listed.Listed? && ignored.Listed? && ignored.error == ""
                                    then IgnoredOf(ignored.pairs) else old(ignoredPairs))
                && alerts == old(alerts)
      ensures !response.Accepted? ==>
                && duplicatePairs == old(duplicatePairs) && ignoredPairs == old(ignoredPairs)
                && currentIndex == old(currentIndex) && selectedImage == old(selectedImage)
                && error == old(error)
                && alerts == old(alerts) + [UndoAlert(response)]
      ensures sent == old(sent)
    {
      var session := pending.sessionId;
      if response.Accepted? {
        LoadDuplicates(Some(session), listed, ignored);
      } else {
        alerts := alerts + [UndoAlert(response)];
      }
      actionInProgress := false;
      pending := NoAction;
    }

    /** `handleUnignore` up to its request: needs an ignored pair at the
        current index and no action in progress. */
    method StartUnignore() returns (started: bool)
      requires Valid()
      modifies this
      ensures Valid()
      ensures started <==> old(CurrentIgnoredPair()).Some? && !old(actionInProgress)
      ensures !started ==> pending == old(pending) && sent == old(sent) && actionInProgress == old(actionInProgress)
      ensures started ==>
                actionInProgress && pending == Unignoring(old(scanSessionId)) &&
                sent == old(sent) + [UnignoreRequest(old(CurrentIgnoredPair()).value.id, old(scanSessionId))]
      ensures duplicatePairs == old(duplicatePairs) && currentIndex == old(currentIndex)
      ensures ignoredPairs == old(ignoredPairs) && alerts == old(alerts)
    {
      var current := CurrentIgnoredPair();
      if current.None? || actionInProgress {
        return false;
      }
      actionInProgress := true;
      sent := sent + [UnignoreRequest(current.value.id, scanSessionId)];
      pending := Unignoring(scanSessionId);
      return true;
    }

    /** The response to an unignore: on success the lists are reloaded (the
        ignored one twice, by `loadDuplicates` and by `loadIgnored`) and the
        index and image selection are reset. */
    method FinishUnignore(response: ActionResponse, listed: ListResponse, ignored: ListResponse, ignoredAgain: ListResponse)
      requires Valid() && pending.Unignoring?
      modifies this`duplicatePairs, this`ignoredPairs, this`currentIndex, this`selectedImage, this`error,
              this`alerts, this`actionInProgress, this`pending
      ensures Valid()
      ensures !actionInProgress && pending == NoAction
      ensures response.Accepted? ==> currentIndex == 0 && selectedImage == NoImage && alerts == old(alerts)
      ensures response.Accepted? && SessionOf(old(pending).session) ==>
                && duplicatePairs == ListedPairs(listed)
                && error == ListError(listed)
                && ignoredPairs == (if ignoredAgain.Listed? && ignoredAgain.error == ""
                                    then IgnoredOf(ignoredAgain.pairs)
                                    else if listed.Listed? && ignored.Listed? && ignored.error == ""
                                    then IgnoredOf(ignored.pairs)
                                    else old(ignoredPairs))
      ensures response.Accepted? && !SessionOf(old(pending).session) ==>
                duplicatePairs == old(duplicatePairs) && ignoredPairs == old(ignoredPairs) && error == old(error)
      ensures !response.Accepted? ==>
                && duplicatePairs == old(duplicatePairs) && ignoredPairs == old(ignoredPairs)
                && currentIndex == old(currentIndex) && selectedImage == old(selectedImage)
                && error == old(error)
                && alerts == old(alerts) + [UnignoreAlert(response)]
      ensures sent == old(sent)
    {
      var session := pending.session;
      if response.Accepted? {
        ReloadAfterUnignore(session, listed, ignored, ignoredAgain);
      } else {
        alerts := alerts + [UnignoreAlert(response)];
      }
      actionInProgress := false;
      pending := NoAction;
    }

    /** The successful branch of `handleUnignore`: both lists are reloaded,
        the ignored one a second time, and the index and image selection are
        reset. */
    method ReloadAfterUnignore(session: Option<string>, listed: ListResponse, ignored: ListResponse,
                               ignoredAgain: ListResponse)
      requires Valid()
      modifies this`duplicatePairs, this`ignoredPairs, this`currentIndex, this`selectedImage, this`error
      ensures Valid()
      ensures currentIndex == 0 && selectedImage == NoImage
      ensures SessionOf(session) ==>
                && duplicatePairs == ListedPairs(listed)
                && error == ListError(listed)
                && ignoredPairs == (if ignoredAgain.Listed? && ignoredAgain.error == ""
                                    then IgnoredOf(ignoredAgain.pairs)
                                    else if listed.Listed? && ignored.Listed? && ignored.error == ""
                                    then IgnoredOf(ignored.pairs)
                                    else old(ignoredPairs))
      ensures !SessionOf(session) ==>
                duplicatePairs == old(duplicatePairs) && ignoredPairs == old(ignoredPairs) && error == old(error)
    {
      LoadDuplicates(session, listed, ignored);
      LoadIgnored(session, ignoredAgain);
      currentIndex := 0;
      selectedImage := NoImage;
    }

    /** `handleScan` up to its request: without both scan paths it asks for
        the settings instead. */
    method StartScan() returns (started: bool)
      requires Valid()
      modifies this
      ensures Valid()
      ensures started <==> old(settings).backupPath != "" && old(settings).sortedPath != ""
      ensures !started ==> settingsOpen && alerts == old(alerts) + [ConfigurePaths] && sent == old(sent)
      ensures started ==> scanning && error.None? && alerts == old(alerts) &&
                          sent == old(sent) + [ScanRequest(old(settings).backupPath, old(settings).sortedPath)]
      ensures duplicatePairs == old(duplicatePairs) && currentIndex == old(currentIndex) && pending == old(pending)
    {
      if settings.backupPath == "" || settings.sortedPath == "" {
        alerts := alerts + [ConfigurePaths];
        settingsOpen := true;
        return false;
      }
      scanning := true;
      error := None;
      sent := sent + [ScanRequest(settings.backupPath, settings.sortedPath)];
      return true;
    }

    /** The response to a scan: a started scan becomes the current session,
        is remembered in storage and its lists are loaded. */
    method FinishScan(response: ScanResponse, listed: ListResponse, ignored: ListResponse)
      requires Valid()
      modifies this`duplicatePairs, this`ignoredPairs, this`currentIndex, this`selectedImage, this`error,
              this`scanSessionId, this`storage, this`scanning
      ensures Valid()
      ensures !scanning
      ensures response.ScanAnswered? && response.success ==>
                scanSessionId == Some(response.sessionId) &&
                storage == old(storage)["lastScanSessionId" := response.sessionId]
      ensures response.ScanAnswered? && response.success && response.sessionId != "" ==>
                && duplicatePairs == ListedPairs(listed)
                && error == ListError(listed)
                && selectedImage == NoImage
                && currentIndex == (if ListError(listed).None? then 0 else old(currentIndex))
                && ignoredPairs == (if listed.Listed? && ignored.Listed? && ignored.error == ""
                                    then IgnoredOf(ignored.pairs) else old(ignoredPairs))
      ensures !(response.ScanAnswered? && response.success) ==>
                error == Some(ScanFailure(response)) &&
                scanSessionId == old(scanSessionId) && storage == old(storage)
      ensures !(response.ScanAnswered? && response.success && response.sessionId != "") ==>
                duplicatePairs == old(duplicatePairs) && ignoredPairs == old(ignoredPairs) &&
                currentIndex == old(currentIndex) && selectedImage == old(selectedImage)
      ensures pending == old(pending) && sent == old(sent) && alerts == old(alerts)
    {
      scanning := false;
      if response.ScanAnswered? && response.success {
        AdoptSession(response.sessionId, listed, ignored);
      } else {
        ReportScanFailure(response);
      }
    }

    /** The successful branch of `handleScan`: the new session becomes the
        current one, is remembered in storage and its lists are loaded. */
    method AdoptSession(sessionId: string, listed: ListResponse, ignored: ListResponse)
      requires Valid()
      modifies this`duplicatePairs, this`ignoredPairs, this`currentIndex, this`selectedImage, this`error,
              this`scanSessionId, this`storage
      ensures Valid()
      ensures scanSessionId == Some(sessionId) && storage == old(storage)["lastScanSessionId" := sessionId]
      ensures sessionId != "" ==>
                && duplicatePairs == ListedPairs(listed)
                && error == ListError(listed)
                && selectedImage == NoImage
                && currentIndex == (if ListError(listed).None? then 0 else old(currentIndex))
                && ignoredPairs == (if listed.Listed? && ignored.Listed? && ignored.error == ""
                                    then IgnoredOf(ignored.pairs) else old(ignoredPairs))
      ensures sessionId == "" ==>
                duplicatePairs == old(duplicatePairs) && ignoredPairs == old(ignoredPairs) &&
                currentIndex == old(currentIndex) && selectedImage == old(selectedImage) && error == old(error)
    {
      scanSessionId := Some(sessionId);
      storage := storage["lastScanSessionId" := sessionId];
      LoadDuplicates(Some(sessionId), listed, ignored);
    }

    /** The failing branches of `handleScan`. */
    method ReportScanFailure(response: ScanResponse)
      requires Valid() && !(response.ScanAnswered? && response.success)
      modifies this`error
      ensures Valid()
      ensures error == Some(ScanFailure(response))
    {
      error := Some(ScanFailure(response));
    }

    /** The error a scan that did not start leaves: the thrown message, the
        server's error or a fixed text. */
    static function ScanFailure(response: ScanResponse): string
      requires !(response.ScanAnswered? && response.success)
    {
      match response
      case ScanThrown(message) => "Failed to start scan: " + message
      case ScanAnswered(_, _, scanError) => if scanError != "" then scanError else "Scan failed"
    }

    /** `cycleTab`. */
    method CycleTab()
      requires Valid()
      modifies this
      ensures Valid()
      ensures activeTab == CycledTab(old(activeTab)) && selectedImage == NoImage && currentIndex == 0
      ensures duplicatePairs == old(duplicatePairs) && ignoredPairs == old(ignoredPairs) && pending == old(pending)
    {
      activeTab := CycledTab(activeTab);
      selectedImage := NoImage;
      currentIndex := 0;
    }

    /** A click on one of the three tab buttons. */
    method SelectTab(t: Tab)
      requires Valid()
      modifies this
      ensures Valid()
      ensures activeTab == t && selectedImage == NoImage && currentIndex == 0
      ensures duplicatePairs == old(duplicatePairs) && ignoredPairs == old(ignoredPairs) && pending == old(pending)
    {
      activeTab := t;
      selectedImage := NoImage;
      currentIndex := 0;
    }

    /** `handleSettingsChange`, called by the settings sidebar on save. */
    method SettingsChanged(s: Settings)
      requires Valid()
      modifies this
      ensures Valid()
      ensures settings == s
      ensures duplicatePairs == old(duplicatePairs) && currentIndex == old(currentIndex) && pending == old(pending)
    {
      settings := s;
    }

    /** A 300 ms timeout set by `?` or `s` fires and opens its panel. */
    method FireTimeout()
      requires Valid() && scheduled != []
      modifies this
      ensures Valid()
      ensures scheduled == old(scheduled)[1..]
      ensures old(scheduled)[0] == HelpPanel ==> showHelp && settingsOpen == old(settingsOpen)
      ensures old(scheduled)[0] == SettingsPanel ==> settingsOpen && showHelp == old(showHelp)
    {
      if scheduled[0] == HelpPanel {
        showHelp := true;
      } else {
        settingsOpen := true;
      }
      scheduled := scheduled[1..];
    }

    /** The window's `keydown` listener; `prevented` tells whether it called
        `preventDefault`. Keys aimed at an input field or a text area are
        left alone. */
    method KeyPress(target: Target, key: Key, ctrlOrMeta: bool) returns (prevented: bool)
      requires Valid()
      modifies this
      ensures Valid()
      ensures target != OtherElement ==>
                !prevented && activeTab == old(activeTab) && currentIndex == old(currentIndex) &&
                showHelp == old(showHelp) && settingsOpen == old(settingsOpen) && sent == old(sent) &&
                duplicatePairs == old(duplicatePairs) && selectedImage == old(selectedImage)
      ensures target == OtherElement && key == Escape ==>
                prevented &&
                (old(showHelp) ==> !showHelp && settingsOpen == old(settingsOpen)) &&
                (!old(showHelp) ==> !settingsOpen && showHelp == old(showHelp))
      ensures target == OtherElement && key == ArrowLeft ==>
                prevented && selectedImage == PreviousSelection(old(selectedImage))
      ensures target == OtherElement && key == ArrowRight ==>
                prevented && selectedImage == NextSelection(old(selectedImage))
      ensures target == OtherElement && key == OtherKey ==>
                !prevented && activeTab == old(activeTab) && sent == old(sent) && pending == old(pending)
      ensures target == OtherElement && key.Char? ==>
                (prevented <==> key.c in "?sSkKcCeEdDuU" || (key.c == 'z' && ctrlOrMeta))
      ensures target == OtherElement && key.Char? && key.c in "cC" ==>
                activeTab == CycledTab(old(activeTab)) && currentIndex == 0
      ensures target == OtherElement && key.Char? && key.c in "eEdD" ==>
                (sent != old(sent) <==> old(CurrentPair()).Some? && !old(actionInProgress))
      ensures target == OtherElement && key.Char? && key.c in "kK" ==>
                (sent != old(sent) <==> old(settings).backupPath != "" && old(settings).sortedPath != "")
      ensures target == OtherElement && key.Char? && key.c == 'z' && ctrlOrMeta ==>
                (sent != old(sent) <==> !old(actionInProgress) && old(scanSessionId).Some? && old(scanSessionId).value != "")
    {
      if target != OtherElement {
        return false;
      }
      prevented := true;
      match key
      case Escape =>
        if showHelp {
          showHelp := false;
        } else if settingsOpen {
          settingsOpen := false;
        }
      case ArrowLeft =>
        selectedImage := PreviousSelection(selectedImage);
      case ArrowRight =>
        selectedImage := NextSelection(selectedImage);
      case OtherKey =>
        prevented := false;
      case Char(c) =>
        prevented := CharKey(c, ctrlOrMeta);
    }

    /** The character shortcuts of the listener. */
    method CharKey(c: char, ctrlOrMeta: bool) returns (prevented: bool)
      requires Valid()
      modifies this
      ensures Valid()
      ensures c in "?sS" ==>
                prevented && sent == old(sent) && pending == old(pending) &&
                (c == '?' && old(settingsOpen) ==> !settingsOpen && scheduled == old(scheduled) + [HelpPanel]) &&
                (c == '?' && !old(settingsOpen) ==> showHelp == !old(showHelp)) &&
                (c != '?' && old(showHelp) ==> !showHelp && scheduled == old(scheduled) + [SettingsPanel]) &&
                (c != '?' && !old(showHelp) ==> settingsOpen)
      ensures c in "kK" ==>
                prevented && pending == old(pending) &&
                (sent != old(sent) <==> old(settings).backupPath != "" && old(settings).sortedPath != "")
      ensures c in "cC" ==> prevented && activeTab == CycledTab(old(activeTab)) && currentIndex == 0
      ensures c in "uU" && old(activeTab) != IgnoredTab ==> prevented && pending == old(pending) && sent == old(sent)
      ensures c in "uU" && old(activeTab) == IgnoredTab ==>
                prevented && (sent != old(sent) <==> old(CurrentIgnoredPair()).Some? && !old(actionInProgress))
      ensures c in "eE" ==>
                prevented &&
                (sent != old(sent) <==> old(CurrentPair()).Some? && !old(actionInProgress)) &&
                (sent != old(sent) ==> pending.Removal? && pending.kind == IgnoreRemoval)
      ensures c in "dD" ==>
                prevented &&
                (sent != old(sent) <==> old(CurrentPair()).Some? && !old(actionInProgress)) &&
                (sent != old(sent) ==> pending.Removal? && pending.kind == DeleteRemoval)
      ensures c == 'z' && ctrlOrMeta ==>
                prevented &&
                (sent != old(sent) <==> !old(actionInProgress) && old(scanSessionId).Some? && old(scanSessionId).value != "")
      ensures c !in "?sSkKcCeEdDuU" && !(c == 'z' && ctrlOrMeta) ==>
                !prevented && activeTab == old(activeTab) && sent == old(sent) && pending == old(pending)
    {
      prevented := true;
      if c == '?' || c == 's' || c == 'S' {
        PanelKey(c);
      } else if c == 'k' || c == 'K' {
        var _ := StartScan();
      } else if c == 'c' || c == 'C' {
        CycleTab();
      } else {
        prevented := PairKey(c, ctrlOrMeta);
      }
    }

    /** The character shortcuts that act on pairs: ignore, delete, unignore
        and undo. */
    method PairKey(c: char, ctrlOrMeta: bool) returns (prevented: bool)
      requires Valid()
      modifies this
      ensures Valid()
      ensures c in "uU" && old(activeTab) != IgnoredTab ==> prevented && pending == old(pending) && sent == old(sent)
      ensures c in "uU" && old(activeTab) == IgnoredTab ==>
                prevented && (sent != old(sent) <==> old(CurrentIgnoredPair()).Some? && !old(actionInProgress))
      ensures c in "eE" ==>
                prevented &&
                (sent != old(sent) <==> old(CurrentPair()).Some? && !old(actionInProgress)) &&
                (sent != old(sent) ==> pending.Removal? && pending.kind == IgnoreRemoval)
      ensures c in "dD" ==>
                prevented &&
                (sent != old(sent) <==> old(CurrentPair()).Some? && !old(actionInProgress)) &&
                (sent != old(sent) ==> pending.Removal? && pending.kind == DeleteRemoval)
      ensures c == 'z' && ctrlOrMeta && c !in "eEdDuU" ==>
                prevented &&
                (sent != old(sent) <==> !old(actionInProgress) && old(scanSessionId).Some? && old(scanSessionId).value != "")
      ensures c !in "eEdDuU" && !(c == 'z' && ctrlOrMeta) ==>
                !prevented && activeTab == old(activeTab) && sent == old(sent) && pending == old(pending)
    {
      prevented := true;
      if c == 'e' || c == 'E' {
        var _ := StartIgnore();
      } else if c == 'd' || c == 'D' {
        var _ := StartDelete();
      } else if c == 'u' || c == 'U' {
        if activeTab == IgnoredTab {
          var _ := StartUnignore();
        }
      } else if ctrlOrMeta && c == 'z' {
        var _ := StartUndo();
      } else {
        prevented := false;
      }
    }

    /** `?` toggles the help panel, `s` opens the settings; with the other
        panel open, that one closes first and the wanted one opens 300 ms
        later. */
    method PanelKey(c: char)
      requires Valid() && c in "?sS"
      modifies this
      ensures Valid()
      ensures c == '?' && old(settingsOpen) ==>
                !settingsOpen && showHelp == old(showHelp) && scheduled == old(scheduled) + [HelpPanel]
      ensures c == '?' && !old(settingsOpen) ==>
                showHelp == !old(showHelp) && settingsOpen == old(settingsOpen) && scheduled == old(scheduled)
      ensures c != '?' && old(showHelp) ==>
                !showHelp && settingsOpen == old(settingsOpen) && scheduled == old(scheduled) + [SettingsPanel]
      ensures c != '?' && !old(showHelp) ==> settingsOpen && showHelp == old(showHelp) && scheduled == old(scheduled)
      ensures sent == old(sent) && pending == old(pending) && actionInProgress == old(actionInProgress)
      ensures duplicatePairs == old(duplicatePairs) && currentIndex == old(currentIndex) && activeTab == old(activeTab)
    {
      if c == '?' {
        if settingsOpen {
          settingsOpen := false;
          scheduled := scheduled + [HelpPanel];
        } else {
          showHelp := !showHelp;
        }
      } else if showHelp {
        showHelp := false;
        scheduled := scheduled + [SettingsPanel];
      } else if !settingsOpen {
        settingsOpen := true;
      }
    }
  }
}
