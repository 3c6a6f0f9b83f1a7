/** The folder-path entry field (frontend/src/components/PathInput.jsx): the
    client-side prefix filter over suggested paths, the inline "ghost"
    completion, the split of each dropdown row into typed and remaining text,
    and the field's state machine (keyboard and mouse events, the debounced
    suggestion and validation pipelines, the storage cache). Network responses
    and timer expiries arrive as events; each response carries the value it was
    requested for, as the source's closures do. */
module PathInput {
  import opened Strings
  import opened Seqs
  import opened Shell

  // ---------------------------------------------------------------------------
  // Pure part: filter, inline completion, row display

  /** The text after the last separator: what is being typed at this level. */
  function TypedPart(value: string): (r: string)
    ensures Sep !in r && EndsWith(value, r)
  {
    Basename(value)
  }

  /** The typed part is the whole tail after the last separator: it is
      either the whole value or preceded by a separator. */
  lemma TypedPartWholeTail(value: string)
    ensures var r := TypedPart(value); |r| == |value| || value[|value| - |r| - 1] == Sep
  {
    BasenameWholeTail(value);
  }

  /** The typed part is empty exactly when the value is empty or ends with `/`. */
  lemma TypedPartEmpty(value: string)
    ensures TypedPart(value) == "" <==> value == "" || EndsWithSep(value)
  {
  }

  /** A suggestion's last segment starts with `typed`, ignoring case. */
  predicate SegmentStartsWith(suggestion: string, typed: string)
  {
    Lower(typed) <= Lower(Basename(suggestion))
  }

  /** The client-side filter, shared by the `filteredSuggestions` memo and the
      suggestion-response handler. */
  function ClientFilter(value: string, suggestions: seq<string>): (r: seq<string>)
    ensures EndsWithSep(value) || value == "" ==> r == suggestions
    ensures !EndsWithSep(value) && value != "" ==>
      forall s :: s in r <==> s in suggestions && SegmentStartsWith(s, TypedPart(value))
    ensures |r| <= |suggestions|
  {
    var typed := TypedPart(value);
    if EndsWithSep(value) || typed == "" then suggestions
    else
      FilterMembers(suggestions, SegmentStartsWithOf(typed));
      Filter(suggestions, SegmentStartsWithOf(typed))
  }

  function SegmentStartsWithOf(typed: string): string -> bool
  {
    s => SegmentStartsWith(s, typed)
  }

  /** The filter keeps the input order: filtering a concatenation is the
      concatenation of the filtered parts. */
  lemma {:induction false} ClientFilterAppend(value: string, a: seq<string>, b: seq<string>)
    ensures ClientFilter(value, a + b) == ClientFilter(value, a) + ClientFilter(value, b)
  {
    var typed := TypedPart(value);
    if !(EndsWithSep(value) || typed == "") {
      FilterAppend(a, b, SegmentStartsWithOf(typed));
    }
  }

  /** The memo re-filters the list the response handler already filtered for
      the same value; doing so changes nothing. */
  lemma {:induction false} ClientFilterIdempotent(value: string, suggestions: seq<string>)
    ensures ClientFilter(value, ClientFilter(value, suggestions)) == ClientFilter(value, suggestions)
  {
    var typed := TypedPart(value);
    if !(EndsWithSep(value) || typed == "") {
      var p := SegmentStartsWithOf(typed);
      FilterAll(suggestions, p);
      FilterKeepsAll(Filter(suggestions, p), p);
    }
  }

  /** `s` with `/` appended unless it already ends with one. */
  function WithTrailingSep(s: string): (r: string)
    ensures EndsWithSep(r)
    ensures s <= r && |r| <= |s| + 1
    ensures EndsWithSep(s) <==> r == s
  {
    if EndsWithSep(s) then s else s + [Sep]
  }

  /** The ghost completion shown after the caret for a response to `value`:
      the tail of the first filtered suggestion beyond `value`'s length, with
      `/` appended when missing; empty when `value` ends with `/` or nothing
      matched. */
  function InlineCompletion(value: string, filtered: seq<string>): (r: string)
    ensures r == "" || EndsWithSep(r)
    ensures r != "" <==> !EndsWithSep(value) && |filtered| > 0 && filtered[0] != ""
    ensures r != "" && |value| < |filtered[0]| ==>
      filtered[0][..|value|] + r == WithTrailingSep(filtered[0])
    ensures r != "" && |value| >= |filtered[0]| ==> r == [Sep]
  {
    if !EndsWithSep(value) && |filtered| > 0 then
      var best := filtered[0];
      if best != "" then WithTrailingSep(Substring(best, |value|)) else ""
    else ""
  }

  /** When the typed value is literally a prefix of the best match, accepting
      the ghost completion gives the same value as accepting that suggestion. */
  lemma {:induction false} InlineAcceptAgreesWithSuggestion(value: string, filtered: seq<string>)
    requires !EndsWithSep(value) && |filtered| > 0 && value <= filtered[0] && |value| < |filtered[0]|
    ensures value + InlineCompletion(value, filtered) == WithTrailingSep(filtered[0])
  {
    assert filtered[0][..|value|] == value;
  }

  /** A value that already spells out the whole best match is completed with a
      lone `/`, even when the match itself ends with one. */
  lemma InlineCompletionOfWholeMatch(value: string, filtered: seq<string>)
    requires !EndsWithSep(value) && |filtered| > 0 && filtered[0] != "" && |value| >= |filtered[0]|
    ensures InlineCompletion(value, filtered) == [Sep]
  {
  }

  /** The filter compares ignoring case but the completion is cut by length,
      so when the typed value differs in case from the start of the best match
      (say "/volume1/pho" against "/volume1/Photos"), accepting the ghost
      completion does not give the suggestion: it keeps the typed case. */
  lemma {:induction false} InlineAcceptKeepsTypedCase(value: string, filtered: seq<string>)
    requires !EndsWithSep(value) && |filtered| > 0 && |value| < |filtered[0]|
    requires value != filtered[0][..|value|]
    ensures InlineCompletion(value, filtered) != ""
    ensures value + InlineCompletion(value, filtered) != WithTrailingSep(filtered[0])
    ensures (value + InlineCompletion(value, filtered))[|value|..] == InlineCompletion(value, filtered)
  {
    var r := value + InlineCompletion(value, filtered);
    assert r[..|value|] == value;
  }

  /** `suggestion.toLowerCase().startsWith(prefix.toLowerCase())`. */
  predicate PrefixIgnoringCase(prefix: string, suggestion: string)
  {
    Lower(prefix) <= Lower(suggestion)
  }

  /** How a dropdown row is drawn: the part shown as already typed and the
      remaining part shown in grey. */
  function RowSplit(value: string, suggestion: string): (r: (string, string))
  {
    if EndsWithSep(value) then (value, Substring(suggestion, |value|))
    else
      var i := LastIndexOf(value, Sep);
      var parent := if i >= 0 then value[..i + 1] else [Sep];
      var typed := if i >= 0 then value[i + 1..] else value;
      SplitAfterParent(parent, typed, suggestion)
  }

  /** The row drawn for a value cut into its parent folder and typed part. */
  function SplitAfterParent(parent: string, typed: string, suggestion: string): (string, string)
  {
    var rest := Substring(suggestion, |parent|);
    if PrefixIgnoringCase(parent, suggestion) && PrefixIgnoringCase(typed, rest) then
      (parent + typed, Substring(rest, |typed|))
    else (parent, rest)
  }

  /** For a value that contains `/` and is a literal prefix of the suggestion,
      the row shows the value as typed and the two parts rebuild the suggestion. */
  lemma {:induction false} RowSplitRebuildsSuggestion(value: string, suggestion: string)
    requires Sep in value && value <= suggestion
    ensures RowSplit(value, suggestion).0 == value
    ensures RowSplit(value, suggestion).0 + RowSplit(value, suggestion).1 == suggestion
  {
    if !EndsWithSep(value) {
      var i := LastIndexOf(value, Sep);
      var k :| 0 <= k < |value| && value[k] == Sep;
      assert i >= 0;
      var n := i + 1;
      SplitPrefix(value, suggestion, n);
      assert RowSplit(value, suggestion) == SplitAfterParent(value[..n], value[n..], suggestion);
    } else {
      assert suggestion[..|value|] == value;
      assert RowSplit(value, suggestion) == (value, Substring(suggestion, |value|));
    }
  }

  /** Cutting a literal prefix `value` of `suggestion` at `n` into a parent and
      a typed part: both parts match the suggestion, ignoring case or not. */
  lemma {:induction false} SplitPrefix(value: string, suggestion: string, n: nat)
    requires value <= suggestion && n <= |value|
    ensures PrefixIgnoringCase(value[..n], suggestion)
    ensures PrefixIgnoringCase(value[n..], Substring(suggestion, n))
    ensures value[..n] + value[n..] == value
    ensures value + Substring(Substring(suggestion, n), |value| - n) == suggestion
  {
    var rest := suggestion[n..];
    assert Substring(suggestion, n) == rest;
    assert value[..n] == suggestion[..n];
    LowerPrefix(value[..n], suggestion);
    assert value[n..] == rest[..|value| - n];
    LowerPrefix(value[n..], rest);
    SplitPrefixRebuilds(value, suggestion, n);
  }

  lemma SplitPrefixRebuilds(value: string, suggestion: string, n: nat)
    requires value <= suggestion && n <= |value|
    ensures value[..n] + value[n..] == value
    ensures value + Substring(Substring(suggestion, n), |value| - n) == suggestion
  {
    var rest := suggestion[n..];
    assert Substring(suggestion, n) == rest;
    assert rest[|value| - n..] == suggestion[|value|..];
    assert suggestion == value + suggestion[|value|..];
  }

  /** With no `/` in the value the row's typed part gains a leading `/` that
      the user never typed. */
  lemma RowSplitWithoutSeparator(value: string, suggestion: string)
    requires value != "" && Sep !in value
    ensures [Sep] <= RowSplit(value, suggestion).0
  {
  }

  lemma {:induction false} LowerPrefix(a: string, b: string)
    requires a <= b
    ensures PrefixIgnoringCase(a, b)
  {
    assert forall i :: 0 <= i < |a| ==> Lower(a)[i] == Lower(b)[i];
  }

  /** ArrowDown: one row further down, stopping at the last row; a highlight
      already at or past the last row (the list shrank under it) stays put. */
  function ArrowDownIndex(index: int, count: nat): (r: int)
    requires count > 0 && index >= -1
    ensures r >= 0 && r >= index
    ensures index < count ==> r < count
    ensures index < count - 1 ==> r == index + 1
    ensures index >= count - 1 ==> r == index
  {
    if index < count - 1 then index + 1 else index
  }

  /** ArrowUp: one row further up; from the first row to "nothing highlighted". */
  function ArrowUpIndex(index: int): (r: int)
    requires index >= -1
    ensures -1 <= r <= index
    ensures r == -1 || r == index - 1
  {
    if index > 0 then index - 1 else -1
  }

  /** ArrowUp after ArrowDown returns to the starting row unless the
      highlight was already on the last row. */
  lemma ArrowDownThenUp(index: int, count: nat)
    requires count > 0 && -1 <= index < count - 1
    ensures ArrowUpIndex(ArrowDownIndex(index, count)) == index
  {
  }

  // ---------------------------------------------------------------------------
  // The field's state machine

  /** The one pending-timer slot (`debounceTimerRef`), shared by both effects. */
  datatype Timer = NoTimer | SuggestTimer(query: string) | ValidateTimer(query: string)

  /** A request sent to the backend. */
  datatype Request = SuggestRequest(partial: string) | ValidateRequest(path: string)

  /** Response to `GET /api/paths/suggest`; a missing `suggestions` field reads as `Listed([])`. */
  datatype SuggestResponse = Listed(paths: seq<string>) | SuggestFailed

  /** Response to `POST /api/paths/validate`; a null `normalized_path` reads as "". */
  datatype ValidateResponse =
    | Checked(valid: bool, error: Option<string>, normalizedPath: string)
    | ValidateFailed

  /** One call of the parent's `onValidationChange(valid, error)`. */
  datatype Report = Report(valid: bool, error: Option<string>)

  datatype Key = Tab | ArrowDown | ArrowUp | Enter | Escape | ArrowRight | OtherKey

  /** What a key press did to the browser's default action; `HandlerError` is
      the exception thrown by Enter on a highlighted index past the list's end
      (after the default action was already prevented). */
  datatype KeyOutcome = DefaultAction | Prevented | HandlerError

  const ValidateFailedMessage: string := "Failed to validate path"

  /** The value cached under `key`; absent and empty read alike, as `cached &&` does. */
  function Cached(storage: map<string, string>, key: string): string
  {
    if key in storage then storage[key] else ""
  }

  class PathField {
    var value: string
    var suggestions: seq<string>
    var showSuggestions: bool
    var inlineSuggestion: string
    var selectedIndex: int
    var isValid: bool
    var validationError: Option<string>
    var isValidating: bool
    var pending: Timer
    /** Every request sent, oldest first. */
    var requests: seq<Request>
    /** Every call of `onValidationChange`, oldest first. */
    var reports: seq<Report>
    /** The storage key; "" when the field has none. */
    const storageKey: string
    /** The browser's local storage. */
    var storage: map<string, string>

    /** The rows the dropdown shows. */
    function Filtered(): seq<string>
      reads this`value, this`suggestions
    {
      ClientFilter(value, suggestions)
    }

    /** The storage key always holds the current value: every non-empty value
        is written to it, and an empty value with a non-empty cached string is
        replaced by that string. */
    predicate CacheSynced()
      reads this`storage, this`value
    {
      storageKey != "" ==> Cached(storage, storageKey) == value
    }

    ghost predicate Valid()
      reads this`selectedIndex, this`inlineSuggestion, this`storage, this`value, this`pending
    {
      && selectedIndex >= -1
      && (inlineSuggestion == "" || EndsWithSep(inlineSuggestion))
      && CacheSynced()
      && !pending.SuggestTimer?
    }

    /** Mounting the field: the initial render runs every effect. */
    constructor (initial: string, key: string, store: map<string, string>)
      ensures Valid()
      ensures storageKey == key && selectedIndex == -1 && !isValidating
      ensures value == (if key != "" && initial == "" && Cached(store, key) != "" then Cached(store, key) else initial)
      ensures requests == (if EndsWithSep(value) then [SuggestRequest(value)] else [])
      ensures pending == (if IsBlank(value) then NoTimer else ValidateTimer(value))
      ensures suggestions == [] && !showSuggestions && inlineSuggestion == ""
    {
      value := initial;
      storageKey := key;
      storage := store;
      suggestions := [];
      showSuggestions := false;
      inlineSuggestion := "";
      selectedIndex := -1;
      isValid := false;
      validationError := None;
      isValidating := false;
      pending := NoTimer;
      requests := [];
      reports := [];
      new;
      RunEffects();
    }

    /** The effects that depend on `value`, in declaration order, for one
        render (the cache load is handled by RunEffects). Both the fetch and
        the validation effect clear the one shared timer slot, so the
        validation effect cancels the suggestion timer the fetch effect has
        just set. */
    method EffectsOnce()
      modifies this
      ensures storage == if storageKey != "" && value != "" then old(storage)[storageKey := value] else old(storage)
      ensures pending == if IsBlank(value) then NoTimer else ValidateTimer(value)
      ensures requests == old(requests) + if value != "" && EndsWithSep(value) then [SuggestRequest(value)] else []
      ensures value == "" ==> suggestions == [] && !showSuggestions && inlineSuggestion == ""
      ensures value != "" ==> suggestions == old(suggestions) && showSuggestions == old(showSuggestions)
                              && inlineSuggestion == old(inlineSuggestion)
      ensures IsBlank(value) ==> !isValid && validationError == None && reports == old(reports) + [Report(false, None)]
      ensures !IsBlank(value) ==> isValid == old(isValid) && validationError == old(validationError)
                                  && reports == old(reports)
      ensures value == old(value) && selectedIndex == old(selectedIndex) && isValidating == old(isValidating)
    {
      SaveEffect();
      FetchEffect();
      ValidateEffect();
    }

    /** Every non-empty value is written under the storage key. */
    method SaveEffect()
      modifies this`storage
      ensures storage == if storageKey != "" && value != "" then old(storage)[storageKey := value] else old(storage)
    {
      if storageKey != "" && value != "" {
        storage := storage[storageKey := value];
      }
    }

    /** Suggestions: none for an empty value, a request at once after a `/`,
        otherwise a 200 ms timer. */
    method FetchEffect()
      modifies this`pending, this`suggestions, this`showSuggestions, this`inlineSuggestion, this`requests
      ensures pending == if value != "" && !EndsWithSep(value) then SuggestTimer(value) else NoTimer
      ensures requests == old(requests) + if value != "" && EndsWithSep(value) then [SuggestRequest(value)] else []
      ensures value == "" ==> suggestions == [] && !showSuggestions && inlineSuggestion == ""
      ensures value != "" ==> suggestions == old(suggestions) && showSuggestions == old(showSuggestions)
                              && inlineSuggestion == old(inlineSuggestion)
    {
      pending := NoTimer;
      if value == "" {
        suggestions := [];
        showSuggestions := false;
        inlineSuggestion := "";
      } else if EndsWithSep(value) {
        requests := requests + [SuggestRequest(value)];
      } else {
        pending := SuggestTimer(value);
      }
    }

    /** Validation: a blank value is reported invalid at once, anything else
        after a 500 ms timer that replaces whatever timer was pending. */
    method ValidateEffect()
      modifies this`pending, this`isValid, this`validationError, this`reports
      ensures pending == if IsBlank(value) then NoTimer else ValidateTimer(value)
      ensures IsBlank(value) ==> !isValid && validationError == None && reports == old(reports) + [Report(false, None)]
      ensures !IsBlank(value) ==> isValid == old(isValid) && validationError == old(validationError)
                                  && reports == old(reports)
    {
      pending := NoTimer;
      if IsBlank(value) {
        isValid := false;
        validationError := None;
        reports := reports + [Report(false, None)];
      } else {
        pending := ValidateTimer(value);
      }
    }

    /** A render with a new value: the effects run, and when the value is empty
        while the storage key holds a non-empty string the load effect hands
        that string back to the parent, which re-renders with it. */
    method RunEffects()
      requires selectedIndex >= -1 && (inlineSuggestion == "" || EndsWithSep(inlineSuggestion))
      modifies this
      ensures Valid()
      ensures var refill := storageKey != "" && old(value) == "" && Cached(old(storage), storageKey) != "";
              value == (if refill then Cached(old(storage), storageKey) else old(value))
      ensures pending == if IsBlank(value) then NoTimer else ValidateTimer(value)
      ensures requests == old(requests) + if EndsWithSep(value) then [SuggestRequest(value)] else []
      ensures old(value) == "" ==> suggestions == [] && !showSuggestions && inlineSuggestion == ""
      ensures old(value) != "" ==> suggestions == old(suggestions) && showSuggestions == old(showSuggestions)
                                   && inlineSuggestion == old(inlineSuggestion)
      ensures IsBlank(old(value)) || IsBlank(value) ==> !isValid && validationError == None
      ensures !IsBlank(old(value)) && !IsBlank(value) ==> isValid == old(isValid) && validationError == old(validationError)
      ensures selectedIndex == old(selectedIndex) && isValidating == old(isValidating)
      ensures old(reports) <= reports
    {
      var refill := storageKey != "" && value == "" && Cached(storage, storageKey) != "";
      var cached := Cached(storage, storageKey);
      EffectsOnce();
      if refill {
        value := cached;
        EffectsOnce();
      }
    }

    /** The parent stores a new value; effects run only when it differs. */
    method ChangeValue(v: string)
      requires Valid()
      modifies this
      ensures Valid()
      ensures v != old(value) ==> value == (if v == "" && storageKey != "" && Cached(old(storage), storageKey) != ""
                                            then Cached(old(storage), storageKey) else v)
      ensures v == old(value) ==> value == old(value) && requests == old(requests) && pending == old(pending)
      ensures v != old(value) ==> requests == old(requests) + if EndsWithSep(value) then [SuggestRequest(value)] else []
      ensures v != old(value) ==> pending == if IsBlank(value) then NoTimer else ValidateTimer(value)
      ensures v != old(value) && v == "" ==> suggestions == [] && !showSuggestions && inlineSuggestion == ""
      ensures v != "" || v == old(value) ==> suggestions == old(suggestions) && showSuggestions == old(showSuggestions)
                                             && inlineSuggestion == old(inlineSuggestion)
      ensures v != old(value) && IsBlank(v) ==> !isValid && validationError == None
      ensures v == old(value) || !IsBlank(v) ==> isValid == old(isValid) && validationError == old(validationError)
      ensures selectedIndex == old(selectedIndex) && isValidating == old(isValidating)
      ensures old(reports) <= reports
    {
      if v != value {
        value := v;
        RunEffects();
      }
    }

    /** The parent renders again without a new value. The validation effect
        also depends on `onChange` and `onValidationChange`, and a parent that
        passes new functions on every render (as the settings sidebar does)
        re-runs that effect alone: the timer slot is cleared and a fresh
        500 ms check of the same value is armed, and a blank field reports
        itself invalid once more. */
    method ParentRender()
      requires Valid()
      modifies this`pending, this`isValid, this`validationError, this`reports
      ensures Valid()
      ensures pending == if IsBlank(value) then NoTimer else ValidateTimer(value)
      ensures IsBlank(value) ==> !isValid && validationError == None && reports == old(reports) + [Report(false, None)]
      ensures !IsBlank(value) ==> isValid == old(isValid) && validationError == old(validationError)
                                  && reports == old(reports)
    {
      ValidateEffect();
    }

    /** Typing in the input: the value goes to the parent and the highlight is cleared. */
    method Type(v: string)
      requires Valid()
      modifies this
      ensures Valid()
      ensures selectedIndex == -1
      ensures v != "" ==> value == v
      ensures v != old(value) ==> requests == old(requests) + if EndsWithSep(value) then [SuggestRequest(value)] else []
      ensures v != old(value) && v == "" && value == "" ==> suggestions == [] && !showSuggestions && inlineSuggestion == ""
      ensures v != old(value) ==> pending == if IsBlank(value) then NoTimer else ValidateTimer(value)
    {
      ChangeValue(v);
      selectedIndex := -1;
    }

    /** Focusing the input opens the dropdown when there is something to show. */
    method Focus()
      requires Valid()
      modifies this`showSuggestions
      ensures Valid()
      ensures showSuggestions == (old(showSuggestions) || |suggestions| > 0 || EndsWithSep(value))
    {
      if |suggestions| > 0 || EndsWithSep(value) {
        showSuggestions := true;
      }
    }

    /** The pending timer expires. Only a validation timer can be pending. */
    method FireTimer()
      requires Valid()
      modifies this
      ensures Valid()
      ensures pending == NoTimer
      ensures old(pending).ValidateTimer? ==>
        isValidating && requests == old(requests) + [ValidateRequest(old(pending).query)]
      ensures old(pending).NoTimer? ==> requests == old(requests) && isValidating == old(isValidating)
      ensures value == old(value) && suggestions == old(suggestions) && selectedIndex == old(selectedIndex)
      ensures inlineSuggestion == old(inlineSuggestion) && showSuggestions == old(showSuggestions)
      ensures storage == old(storage) && reports == old(reports)
    {
      if pending.ValidateTimer? {
        isValidating := true;
        requests := requests + [ValidateRequest(pending.query)];
        pending := NoTimer;
      }
    }

    /** The answer to a suggestion request for `query` arrives. It is applied
        whatever the field holds now: the filter and the completion are taken
        against `query`, not against the current value. */
    method ReceiveSuggestions(query: string, response: SuggestResponse)
      requires Valid() && SuggestRequest(query) in requests
      modifies this`suggestions, this`showSuggestions, this`inlineSuggestion
      ensures Valid()
      ensures response.Listed? && |response.paths| > 0 ==>
        && suggestions == ClientFilter(query, response.paths)
        && showSuggestions == (|suggestions| > 0)
        && inlineSuggestion == InlineCompletion(query, suggestions)
      ensures response.Listed? && |response.paths| == 0 ==>
        suggestions == [] && !showSuggestions && inlineSuggestion == ""
      ensures response.SuggestFailed? ==>
        suggestions == [] && inlineSuggestion == "" && showSuggestions == old(showSuggestions)
    {
      if response.SuggestFailed? {
        suggestions := [];
        inlineSuggestion := "";
      } else if |response.paths| > 0 {
        var filtered := ClientFilter(query, response.paths);
        var completion := InlineCompletion(query, filtered);
        suggestions := filtered;
        showSuggestions := |filtered| > 0;
        inlineSuggestion := completion;
      } else {
        suggestions := [];
        showSuggestions := false;
        inlineSuggestion := "";
      }
    }

    /** The answer to a validation request for `query` arrives. A normalised
        path that differs from `query` is handed to the parent as the new value. */
    method ReceiveValidation(query: string, response: ValidateResponse)
      requires Valid() && ValidateRequest(query) in requests
      modifies this
      ensures Valid()
      ensures response.ValidateFailed? ==>
        && !isValid && validationError == Some(ValidateFailedMessage)
        && reports == old(reports) + [Report(false, Some(ValidateFailedMessage))]
        && value == old(value) && requests == old(requests)
      ensures response.Checked? ==>
        |reports| > |old(reports)| && reports[|old(reports)|] == Report(response.valid, response.error)
      ensures response.Checked? && (response.normalizedPath == "" || response.normalizedPath == query) ==>
        && isValid == response.valid && validationError == response.error
        && value == old(value) && requests == old(requests) && reports == old(reports) + [Report(response.valid, response.error)]
      ensures response.Checked? && response.normalizedPath != "" && response.normalizedPath != query ==>
        value == response.normalizedPath
      ensures response.Checked? && response.normalizedPath != query && !IsBlank(response.normalizedPath) ==>
        isValid == response.valid && validationError == response.error
      ensures response.Checked? && response.normalizedPath != "" && response.normalizedPath != query
              && response.normalizedPath != old(value) ==>
        && pending == (if IsBlank(value) then NoTimer else ValidateTimer(value))
        && requests == old(requests) + (if EndsWithSep(value) then [SuggestRequest(value)] else [])
        && (IsBlank(value) ==> !isValid && validationError == None)
      ensures response.Checked? && response.normalizedPath == old(value) ==>
        pending == old(pending) && requests == old(requests)
      ensures !isValidating
      ensures selectedIndex == old(selectedIndex)
    {
      match response
      case Checked(valid, error, normalized) =>
        isValid := valid;
        validationError := error;
        reports := reports + [Report(valid, error)];
        isValidating := false;
        if normalized != "" && normalized != query {
          ChangeValue(normalized);
        }
      case ValidateFailed =>
        isValid := false;
        validationError := Some(ValidateFailedMessage);
        reports := reports + [Report(false, Some(ValidateFailedMessage))];
        isValidating := false;
    }

    /** Accepting a suggestion: the value becomes the suggestion ending in `/`,
        the dropdown closes and the highlight is cleared. */
    method AcceptSuggestion(s: string)
      requires Valid()
      modifies this
      ensures Valid()
      ensures value == WithTrailingSep(s)
      ensures !showSuggestions && selectedIndex == -1
      ensures WithTrailingSep(s) != old(value) ==> requests == old(requests) + [SuggestRequest(value)]
      ensures WithTrailingSep(s) == old(value) ==> requests == old(requests)
      ensures suggestions == old(suggestions) && inlineSuggestion == old(inlineSuggestion)
    {
      ChangeValue(WithTrailingSep(s));
      showSuggestions := false;
      selectedIndex := -1;
    }

    /** Tab and ArrowRight: the ghost completion if there is one, else the first row. */
    method AcceptInline()
      requires Valid()
      modifies this
      ensures Valid()
      ensures old(inlineSuggestion) != "" ==>
        && value == old(value) + old(inlineSuggestion) && inlineSuggestion == ""
        && EndsWithSep(value) && requests == old(requests) + [SuggestRequest(value)]
        && showSuggestions == old(showSuggestions) && selectedIndex == old(selectedIndex)
      ensures old(inlineSuggestion) == "" && |old(Filtered())| > 0 ==>
        value == WithTrailingSep(old(Filtered())[0]) && !showSuggestions && selectedIndex == -1
      ensures old(inlineSuggestion) == "" && |old(Filtered())| == 0 ==>
        value == old(value) && requests == old(requests) && selectedIndex == old(selectedIndex)
    {
      if inlineSuggestion != "" {
        var v := value + inlineSuggestion;
        inlineSuggestion := "";
        ChangeValue(v);
      } else {
        var f := Filtered();
        if |f| > 0 {
          AcceptSuggestion(f[0]);
        }
      }
    }

    /** A click on a dropdown row. */
    method ClickRow(i: nat)
      requires Valid() && showSuggestions && i < |Filtered()|
      modifies this
      ensures Valid()
      ensures value == WithTrailingSep(old(Filtered())[i])
      ensures !showSuggestions && selectedIndex == -1
    {
      AcceptSuggestion(Filtered()[i]);
    }

    /** The mouse enters a dropdown row; leaving it changes nothing. */
    method HoverRow(i: nat)
      requires Valid() && showSuggestions && i < |Filtered()|
      modifies this`selectedIndex
      ensures Valid() && selectedIndex == i
    {
      selectedIndex := i;
    }

    /** A mouse press outside the field: closes the dropdown but keeps the ghost completion. */
    method MouseDownOutside()
      requires Valid()
      modifies this`showSuggestions, this`selectedIndex
      ensures Valid()
      ensures !showSuggestions && selectedIndex == -1
    {
      showSuggestions := false;
      selectedIndex := -1;
    }

    /** ArrowDown and ArrowUp in `handleKeyDown`, given the number of rows
        shown: with rows, move the selection one step and keep the list open. */
    method ArrowKey(down: bool, count: nat) returns (outcome: KeyOutcome)
      requires Valid()
      modifies this`showSuggestions, this`selectedIndex
      ensures Valid()
      ensures count > 0 ==> outcome == Prevented && showSuggestions
      ensures count > 0 && down ==> selectedIndex == ArrowDownIndex(old(selectedIndex), count)
      ensures count > 0 && !down ==> selectedIndex == ArrowUpIndex(old(selectedIndex))
      ensures count == 0 ==> outcome == DefaultAction && unchanged(this)
    {
      if count == 0 {
        return DefaultAction;
      }
      if down {
        selectedIndex := ArrowDownIndex(selectedIndex, count);
      } else {
        selectedIndex := ArrowUpIndex(selectedIndex);
      }
      showSuggestions := true;
      outcome := Prevented;
    }

    /** Enter in `handleKeyDown`: accepts the selected suggestion; an index
        past the end of the shown list makes the handler fail. */
    method EnterKey() returns (outcome: KeyOutcome)
      requires Valid()
      modifies this
      ensures Valid()
      ensures 0 <= old(selectedIndex) < |old(Filtered())| ==>
        && outcome == Prevented && value == WithTrailingSep(old(Filtered())[old(selectedIndex)])
        && !showSuggestions && selectedIndex == -1
      ensures old(selectedIndex) >= |old(Filtered())| > 0 ==>
        outcome == HandlerError && unchanged(this)
      ensures old(selectedIndex) < 0 || |old(Filtered())| == 0 ==> outcome == DefaultAction && unchanged(this)
    {
      var f := Filtered();
      if selectedIndex >= 0 && |f| > 0 {
        if selectedIndex < |f| {
          AcceptSuggestion(f[selectedIndex]);
          outcome := Prevented;
        } else {
          outcome := HandlerError;
        }
      } else {
        outcome := DefaultAction;
      }
    }

    /** Escape closes the dropdown and drops the highlight and the inline
        completion, leaving the default action alone. */
    method EscapeKey()
      requires Valid()
      modifies this`showSuggestions, this`selectedIndex, this`inlineSuggestion
      ensures Valid()
      ensures !showSuggestions && selectedIndex == -1 && inlineSuggestion == ""
    {
      showSuggestions := false;
      selectedIndex := -1;
      inlineSuggestion := "";
    }

    /** `handleKeyDown`. */
    method KeyDown(key: Key) returns (outcome: KeyOutcome)
      requires Valid()
      modifies this
      ensures Valid()
      ensures key == Tab ==> (outcome == Prevented <==> old(inlineSuggestion) != "" || |old(Filtered())| > 0)
      ensures key == Tab && outcome == Prevented ==> EndsWithSep(value)
      ensures key == ArrowDown && |old(Filtered())| > 0 ==>
        && outcome == Prevented && showSuggestions && value == old(value)
        && selectedIndex == ArrowDownIndex(old(selectedIndex), |old(Filtered())|)
      ensures key == ArrowUp && |old(Filtered())| > 0 ==>
        && outcome == Prevented && showSuggestions && value == old(value)
        && selectedIndex == ArrowUpIndex(old(selectedIndex))
      ensures key == Enter && 0 <= old(selectedIndex) < |old(Filtered())| ==>
        && outcome == Prevented && value == WithTrailingSep(old(Filtered())[old(selectedIndex)])
        && !showSuggestions && selectedIndex == -1
      ensures key == Enter && old(selectedIndex) >= |old(Filtered())| > 0 ==>
        outcome == HandlerError && value == old(value) && selectedIndex == old(selectedIndex)
      ensures key == Escape ==>
        && outcome == DefaultAction && value == old(value)
        && !showSuggestions && selectedIndex == -1 && inlineSuggestion == ""
      ensures key == ArrowRight && old(inlineSuggestion) != "" ==>
        outcome == Prevented && value == old(value) + old(inlineSuggestion) && inlineSuggestion == ""
      ensures key == ArrowRight && old(inlineSuggestion) == "" ==> outcome == DefaultAction && value == old(value)
      ensures key == OtherKey ==> outcome == DefaultAction && value == old(value)
    {
      if key == Tab {
        outcome := TabKey();
      } else if key == ArrowDown || key == ArrowUp {
        outcome := ArrowKey(key == ArrowDown, |Filtered()|);
      } else if key == Enter {
        outcome := EnterKey();
      } else if key == Escape {
        EscapeKey();
        outcome := DefaultAction;
      } else if key == ArrowRight {
        outcome := ArrowRightKey();
      } else {
        outcome := DefaultAction;
      }
    }

    /** Tab in `handleKeyDown`: with a ghost completion or a row it is
        consumed and accepts one, leaving a value that ends in `/`; otherwise
        focus moves on and nothing changes. */
    method TabKey() returns (outcome: KeyOutcome)
      requires Valid()
      modifies this
      ensures Valid()
      ensures outcome == Prevented <==> old(inlineSuggestion) != "" || |old(Filtered())| > 0
      ensures outcome == Prevented ==> EndsWithSep(value)
      ensures outcome != Prevented ==> outcome == DefaultAction && value == old(value)
    {
      if inlineSuggestion != "" || |Filtered()| > 0 {
        AcceptInline();
        return Prevented;
      }
      outcome := DefaultAction;
    }

    /** ArrowRight in `handleKeyDown`: accepts the ghost completion when there
        is one; otherwise the caret moves as usual. */
    method ArrowRightKey() returns (outcome: KeyOutcome)
      requires Valid()
      modifies this
      ensures Valid()
      ensures old(inlineSuggestion) != "" ==>
        outcome == Prevented && value == old(value) + old(inlineSuggestion) && inlineSuggestion == ""
      ensures old(inlineSuggestion) == "" ==> outcome == DefaultAction && unchanged(this)
    {
      if inlineSuggestion != "" {
        AcceptInline();
        return Prevented;
      }
      outcome := DefaultAction;
    }
  }
}
