/** The settings sidebar of `frontend/src/components/SettingsSidebar.jsx`: the
    three paths, the validity each path field reports, the debounced check
    that the backup and sorted folders form a usable pair, and the gate on
    saving. The pair check is a 500 ms timer followed by a request; both are
    events here, and the request's answer may arrive at any later time. */
module SettingsSidebar {
  import opened Strings
  import opened Shell

  const BackupKey := "backupPath"
  const SortedKey := "sortedPath"
  const RecycleBinKey := "recycleBinPath"

  /** The body of `POST /api/paths/validate-pair`. */
  datatype PairResult = PairResult(valid: bool, errors: seq<string>, warnings: seq<string>)

  /** What `onSettingsChange` receives. */
  datatype Settings = Settings(backupPath: string, sortedPath: string, recycleBinPath: string)

  datatype Key = Escape | OtherKey

  /** `localStorage.getItem(key) || ''`. */
  function Stored(storage: map<string, string>, key: string): string
  {
    if key in storage then storage[key] else ""
  }

  /** The three paths the mount effect reads from storage. */
  function LoadedSettings(storage: map<string, string>): Settings
  {
    Settings(Stored(storage, BackupKey), Stored(storage, SortedKey), Stored(storage, RecycleBinKey))
  }

  /** The storage after `handleSave`: the three keys written, every other key
      untouched; loading it again gives back exactly the saved paths. */
  function SavedStorage(storage: map<string, string>, s: Settings): (r: map<string, string>)
    ensures LoadedSettings(r) == s
    ensures r.Keys == storage.Keys + {BackupKey, SortedKey, RecycleBinKey}
    ensures forall k :: k in storage && k !in {BackupKey, SortedKey, RecycleBinKey} ==> r[k] == storage[k]
  {
    storage[BackupKey := s.backupPath][SortedKey := s.sortedPath][RecycleBinKey := s.recycleBinPath]
  }

  /** The storage after `handleClearRecycleBin`: loading it again gives an
      empty recycle bin path and the other two paths as before. */
  function ClearedStorage(storage: map<string, string>): (r: map<string, string>)
    ensures LoadedSettings(r) == LoadedSettings(storage).(recycleBinPath := "")
    ensures r.Keys == storage.Keys - {RecycleBinKey}
    ensures forall k :: k in r ==> r[k] == storage[k]
  {
    storage - {RecycleBinKey}
  }

  /** The pair effect schedules a check only with both paths filled in and
      both reported valid. */
  predicate PairCheckable(backupPath: string, sortedPath: string, backupValid: bool, sortedValid: bool)
  {
    backupPath != "" && sortedPath != "" && backupValid && sortedValid
  }

  class Sidebar {
    var backupPath: string
    var sortedPath: string
    var recycleBinPath: string
    var backupValid: bool
    var sortedValid: bool
    var recycleBinValid: bool
    var pairValidation: Option<PairResult>
    var isValidatingPair: bool
    /** The pending 500 ms timer and the paths it will check. */
    var pendingCheck: Option<(string, string)>
    /** Pair requests sent and not yet answered. */
    var awaiting: nat
    /** The pair requests sent, oldest first. */
    var pairRequests: seq<(string, string)>
    /** The browser's local storage. */
    var storage: map<string, string>
    /** Whether the parent passed `onSettingsChange`. */
    const notifies: bool
    /** The calls of `onSettingsChange`, oldest first. */
    var notified: seq<Settings>
    /** How often `onClose` was called. */
    var closeCalls: nat

    predicate Checkable()
      reads this`backupPath, this`sortedPath, this`backupValid, this`sortedValid
    {
      PairCheckable(backupPath, sortedPath, backupValid, sortedValid)
    }

    /** `canSave`. */
    predicate CanSave()
      reads this
    {
      backupValid && sortedValid && recycleBinValid &&
      pairValidation.Some? && pairValidation.value.valid && !isValidatingPair
    }

    /** A pending timer always checks the current paths, because every change
        of a path or of a validity cancels it; the in-flight flag is only set
        while a request is unanswered. */
    ghost predicate PairValid()
      reads this`pendingCheck, this`backupPath, this`sortedPath, this`backupValid, this`sortedValid,
            this`isValidatingPair, this`awaiting
    {
      && (pendingCheck.Some? ==> Checkable() && pendingCheck.value == (backupPath, sortedPath))
      && (isValidatingPair ==> awaiting > 0)
    }

    /** The storage holds the three paths on screen: they are loaded from it,
        each field writes every non-empty value under its key and takes the
        stored value back when emptied, and clearing the recycle bin removes
        its key. */
    ghost predicate Persisted()
      reads this`storage, this`backupPath, this`sortedPath, this`recycleBinPath
    {
      LoadedSettings(storage) == Settings(backupPath, sortedPath, recycleBinPath)
    }

    ghost predicate Valid()
      reads this
    {
      PairValid() && Persisted()
    }

    /** Mounting: the three paths come from storage, nothing is valid yet and
        no pair check is scheduled. */
    constructor (store: map<string, string>, hasListener: bool)
      ensures Valid()
      ensures Settings(backupPath, sortedPath, recycleBinPath) == LoadedSettings(store)
      ensures !backupValid && !sortedValid && !recycleBinValid && !CanSave()
      ensures pairValidation.None? && pendingCheck.None? && awaiting == 0 && !isValidatingPair
      ensures storage == store && notifies == hasListener && notified == [] && closeCalls == 0
    {
      var loaded := LoadedSettings(store);
      backupPath := loaded.backupPath;
      sortedPath := loaded.sortedPath;
      recycleBinPath := loaded.recycleBinPath;
      backupValid := false;
      sortedValid := false;
      recycleBinValid := false;
      pairValidation := None;
      isValidatingPair := false;
      pendingCheck := None;
      awaiting := 0;
      pairRequests := [];
      storage := store;
      notifies := hasListener;
      notified := [];
      closeCalls := 0;
    }

    /** The pair effect after one of its dependencies changed: the previous
        timer is cancelled; without a checkable pair the result is cleared,
        otherwise a new timer is set and the previous result stays. */
    method PairEffect()
      requires isValidatingPair ==> awaiting > 0
      modifies this`pendingCheck, this`pairValidation
      ensures PairValid()
      ensures pendingCheck == (if Checkable() then Some((backupPath, sortedPath)) else None)
      ensures pairValidation == (if Checkable() then old(pairValidation) else None)
      ensures backupPath == old(backupPath) && sortedPath == old(sortedPath) && recycleBinPath == old(recycleBinPath)
      ensures backupValid == old(backupValid) && sortedValid == old(sortedValid) && recycleBinValid == old(recycleBinValid)
      ensures isValidatingPair == old(isValidatingPair) && awaiting == old(awaiting) && pairRequests == old(pairRequests)
      ensures storage == old(storage) && notified == old(notified) && closeCalls == old(closeCalls)
    {
      if !Checkable() {
        pendingCheck := None;
        pairValidation := None;
      } else {
        pendingCheck := Some((backupPath, sortedPath));
      }
    }

    /** The backup field's `onChange`. A new non-empty value is written under
        its key and re-runs the pair effect. A value with something besides
        white space keeps the field's validity until its own check answers:
        an incomplete pair clears the result, while a complete one keeps the
        previous paths' result until the new check answers, so `CanSave`
        stays as it was during the 500 ms wait. A blank value makes the field
        report itself invalid in the same commit, which clears the pair
        result. Emptying the field cannot stick: its load effect hands the
        stored path back, which is the path it had, so only the validity and
        the pair result are lost. */
    method ChangeBackupPath(v: string)
      requires Valid()
      modifies this
      ensures Valid()
      ensures backupPath == (if v != "" then v else old(backupPath))
      ensures sortedPath == old(sortedPath) && recycleBinPath == old(recycleBinPath)
      ensures storage == if v != "" then old(storage)[BackupKey := v] else old(storage)
      ensures sortedValid == old(sortedValid) && recycleBinValid == old(recycleBinValid)
      ensures !IsBlank(v) || v == old(backupPath) ==> backupValid == old(backupValid)
      ensures !IsBlank(v) && v != old(backupPath) ==>
                pendingCheck == (if Checkable() then Some((v, sortedPath)) else None) &&
                pairValidation == (if Checkable() then old(pairValidation) else None)
      ensures !IsBlank(v) && v != old(backupPath) && Checkable() ==> CanSave() == old(CanSave())
      ensures v == old(backupPath) ==> pendingCheck == old(pendingCheck) && pairValidation == old(pairValidation)
      ensures IsBlank(v) && v != old(backupPath) ==>
                !backupValid && pendingCheck.None? && pairValidation.None? && !CanSave()
      ensures notified == old(notified) && closeCalls == old(closeCalls)
    {
      if v == backupPath {
        return;
      }
      backupPath := v;
      if v != "" {
        storage := storage[BackupKey := v];
      } else {
        backupPath := Stored(storage, BackupKey);
      }
      if IsBlank(v) {
        backupValid := false;
      }
      PairEffect();
    }

    /** The sorted field's `onChange`; the same rules as for the backup path. */
    method ChangeSortedPath(v: string)
      requires Valid()
      modifies this
      ensures Valid()
      ensures sortedPath == (if v != "" then v else old(sortedPath))
      ensures backupPath == old(backupPath) && recycleBinPath == old(recycleBinPath)
      ensures storage == if v != "" then old(storage)[SortedKey := v] else old(storage)
      ensures backupValid == old(backupValid) && recycleBinValid == old(recycleBinValid)
      ensures !IsBlank(v) || v == old(sortedPath) ==> sortedValid == old(sortedValid)
      ensures !IsBlank(v) && v != old(sortedPath) ==>
                pendingCheck == (if Checkable() then Some((backupPath, v)) else None) &&
                pairValidation == (if Checkable() then old(pairValidation) else None)
      ensures !IsBlank(v) && v != old(sortedPath) && Checkable() ==> CanSave() == old(CanSave())
      ensures v == old(sortedPath) ==> pendingCheck == old(pendingCheck) && pairValidation == old(pairValidation)
      ensures IsBlank(v) && v != old(sortedPath) ==>
                !sortedValid && pendingCheck.None? && pairValidation.None? && !CanSave()
      ensures notified == old(notified) && closeCalls == old(closeCalls)
    {
      if v == sortedPath {
        return;
      }
      sortedPath := v;
      if v != "" {
        storage := storage[SortedKey := v];
      } else {
        sortedPath := Stored(storage, SortedKey);
      }
      if IsBlank(v) {
        sortedValid := false;
      }
      PairEffect();
    }

    /** The recycle bin field's `onChange`; the pair effect does not depend on
        it, but the value is stored, a blank value makes the field report
        itself invalid, and an emptied field takes the stored path back, as
        for the other two. */
    method ChangeRecycleBinPath(v: string)
      requires Valid()
      modifies this
      ensures Valid()
      ensures recycleBinPath == (if v != "" then v else old(recycleBinPath))
      ensures backupPath == old(backupPath) && sortedPath == old(sortedPath)
      ensures storage == if v != "" then old(storage)[RecycleBinKey := v] else old(storage)
      ensures pendingCheck == old(pendingCheck) && pairValidation == old(pairValidation)
      ensures backupValid == old(backupValid) && sortedValid == old(sortedValid)
      ensures !IsBlank(v) || v == old(recycleBinPath) ==> recycleBinValid == old(recycleBinValid)
      ensures IsBlank(v) && v != old(recycleBinPath) ==> !recycleBinValid && !CanSave()
    {
      if v == recycleBinPath {
        return;
      }
      recycleBinPath := v;
      if v != "" {
        storage := storage[RecycleBinKey := v];
      } else {
        recycleBinPath := Stored(storage, RecycleBinKey);
      }
      if IsBlank(v) {
        recycleBinValid := false;
      }
    }

    /** `handleBackupValidation(isValid, error)`: keeps the flag, drops the
        error text, and re-runs the pair effect when the flag changed. */
    method BackupValidation(isValid: bool, error: Option<string>)
      requires Valid()
      modifies this
      ensures Valid()
      ensures backupValid == isValid && sortedValid == old(sortedValid) && recycleBinValid == old(recycleBinValid)
      ensures backupPath == old(backupPath) && sortedPath == old(sortedPath) && recycleBinPath == old(recycleBinPath)
      ensures !isValid ==> pendingCheck.None? && !CanSave()
      ensures !isValid && old(backupValid) ==> pairValidation.None?
      ensures isValid == old(backupValid) ==> pendingCheck == old(pendingCheck) && pairValidation == old(pairValidation)
      ensures isValid && !old(backupValid) ==> pendingCheck == (if Checkable() then Some((backupPath, sortedPath)) else None) && pairValidation == (if Checkable() then old(pairValidation) else None)
      ensures storage == old(storage) && closeCalls == old(closeCalls)
    {
      if isValid != backupValid {
        backupValid := isValid;
        PairEffect();
      }
    }

    /** `handleSortedValidation(isValid, error)`. */
    method SortedValidation(isValid: bool, error: Option<string>)
      requires Valid()
      modifies this
      ensures Valid()
      ensures sortedValid == isValid && backupValid == old(backupValid) && recycleBinValid == old(recycleBinValid)
      ensures backupPath == old(backupPath) && sortedPath == old(sortedPath) && recycleBinPath == old(recycleBinPath)
      ensures !isValid ==> pendingCheck.None? && !CanSave()
      ensures !isValid && old(sortedValid) ==> pairValidation.None?
      ensures isValid == old(sortedValid) ==> pendingCheck == old(pendingCheck) && pairValidation == old(pairValidation)
      ensures isValid && !old(sortedValid) ==> pendingCheck == (if Checkable() then Some((backupPath, sortedPath)) else None) && pairValidation == (if Checkable() then old(pairValidation) else None)
      ensures storage == old(storage) && closeCalls == old(closeCalls)
    {
      if isValid != sortedValid {
        sortedValid := isValid;
        PairEffect();
      }
    }

    /** `handleRecycleBinValidation(isValid, error)`: not a dependency of the
        pair effect. */
    method RecycleBinValidation(isValid: bool, error: Option<string>)
      requires Valid()
      modifies this
      ensures Valid()
      ensures recycleBinValid == isValid && backupValid == old(backupValid) && sortedValid == old(sortedValid)
      ensures pendingCheck == old(pendingCheck) && pairValidation == old(pairValidation)
      ensures !isValid ==> !CanSave()
    {
      recycleBinValid := isValid;
    }

    /** The 500 ms timer fires: the request for the captured paths is sent. */
    method FirePairTimer()
      requires Valid() && pendingCheck.Some?
      modifies this
      ensures Valid()
      ensures isValidatingPair && !CanSave() && pendingCheck.None?
      ensures pairRequests == old(pairRequests) + [old(pendingCheck).value] && awaiting == old(awaiting) + 1
      ensures old(pendingCheck).value == (backupPath, sortedPath)
      ensures pairValidation == old(pairValidation) && backupPath == old(backupPath) && sortedPath == old(sortedPath)
    {
      isValidatingPair := true;
      pairRequests := pairRequests + [pendingCheck.value];
      awaiting := awaiting + 1;
      pendingCheck := None;
    }

    /** The answer to a pair request; `None` is a failed request, which keeps
        the previous result. Either way the in-flight flag is cleared, even
        when another request is still unanswered. */
    method ReceivePair(response: Option<PairResult>)
      requires Valid() && awaiting > 0
      modifies this
      ensures Valid()
      ensures !isValidatingPair && awaiting == old(awaiting) - 1
      ensures pairValidation == if response.Some? then response else old(pairValidation)
      ensures pendingCheck == old(pendingCheck) && pairRequests == old(pairRequests)
      ensures backupPath == old(backupPath) && sortedPath == old(sortedPath)
    {
      if response.Some? {
        pairValidation := response;
      }
      isValidatingPair := false;
      awaiting := awaiting - 1;
    }

    /** `handleSave`: only when saving is allowed, writes the three paths,
        tells the parent and closes. */
    method Save()
      requires Valid()
      modifies this
      ensures Valid()
      ensures old(CanSave()) ==>
                && storage == SavedStorage(old(storage), Settings(backupPath, sortedPath, recycleBinPath))
                && notified == old(notified) + (if notifies then [Settings(backupPath, sortedPath, recycleBinPath)] else [])
                && closeCalls == old(closeCalls) + 1
      ensures !old(CanSave()) ==>
                storage == old(storage) && notified == old(notified) && closeCalls == old(closeCalls)
      ensures backupPath == old(backupPath) && sortedPath == old(sortedPath) && recycleBinPath == old(recycleBinPath)
    {
      if !CanSave() {
        return;
      }
      var s := Settings(backupPath, sortedPath, recycleBinPath);
      storage := SavedStorage(storage, s);
      if notifies {
        notified := notified + [s];
      }
      closeCalls := closeCalls + 1;
    }

    /** `handleClearRecycleBin`: the key is removed before the field renders
        empty, so nothing is handed back, and the blank field reports itself
        invalid. */
    method ClearRecycleBin()
      requires Valid()
      modifies this
      ensures Valid()
      ensures recycleBinPath == "" && storage == ClearedStorage(old(storage))
      ensures backupPath == old(backupPath) && sortedPath == old(sortedPath)
      ensures pairValidation == old(pairValidation)
      ensures old(recycleBinPath) == "" ==> recycleBinValid == old(recycleBinValid)
      ensures old(recycleBinPath) != "" ==> !recycleBinValid && !CanSave()
    {
      var emptied := recycleBinPath != "";
      recycleBinPath := "";
      storage := ClearedStorage(storage);
      if emptied {
        recycleBinValid := false;
      }
    }

    /** The `keydown` listener: Escape closes the sidebar only while it is open. */
    method KeyPress(isOpen: bool, key: Key)
      requires Valid()
      modifies this
      ensures Valid()
      ensures closeCalls == old(closeCalls) + (if isOpen && key == Escape then 1 else 0)
      ensures storage == old(storage) && backupPath == old(backupPath) && pairValidation == old(pairValidation)
    {
      if isOpen && key == Escape {
        closeCalls := closeCalls + 1;
      }
    }
  }
}
