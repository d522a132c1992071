/**
 * The download registry and its state machine (Downloads/DownloadManager.swift).
 *
 * `downloads` is the insertion-ordered dictionary from URL to download state.
 * The progress view that the manager notifies is the event log `events`; the
 * transport session is the log `transport` of the calls made on it, with the
 * ids of the tasks it creates drawn from the counter `nextTask`. URL parsing is
 * a foreign call, passed in as a `UrlParser`.
 */
module Manager {
  import opened Options
  import opened Text
  import opened OrderedDictionary
  import opened Reusables
  import Files

  datatype Url = Url(absoluteString: string)

  /** What `URL(string:)` yields, with the two properties the manager checks. */
  datatype ParsedUrl = ParsedUrl(url: Url, isFileUrl: bool, host: Option<string>)
  datatype UrlParser = UrlParser(parse: string -> Option<ParsedUrl>)

  datatype UrlCheck = Accepted(url: Url) | Rejected(message: string)

  /** Where a new transport task takes its data from. */
  datatype TaskSource = FromUrl(url: Url) | FromResumeData(data: ResumeData)

  /** A call made on the transport session or on one of its tasks. */
  datatype TransportCall =
    | Create(task: TaskId, source: TaskSource)
    | Start(task: TaskId)
    | Cancel(task: TaskId)
    | CancelProducingResumeData(task: TaskId)

  /** A task the transport kept alive across a relaunch, with its original request's URL. */
  datatype LiveTask = LiveTask(task: TaskId, originalUrl: Option<Url>)

  /** A notification to the progress view (or, for a completed download, to the completion handler). */
  datatype ProgressEvent =
    | DownloadBegan(index: nat)
    | DownloadPaused(index: nat)
    | DownloadResumed(index: nat)
    | GotProgress(index: nat, progress: real)
    | DownloadCancelled(index: nat)
    | DownloadsCancelled
    | DownloadCompleted(index: nat, tempPath: Files.Location, preferredFilename: string)
    | ShowError(message: string, title: string)

  type Registry = Dict<Url, DownloadState>

  // ---------------------------------------------------------------------------
  // Checking a typed-in URL string

  /** A string without a scheme separator gets `http://` put in front of it. */
  function WithScheme(s: string): (r: string)
    ensures HasSubstring(r, "://")
    ensures |s| <= |r| && r[|r| - |s|..] == s
    ensures HasSubstring(s, "://") ==> r == s
    ensures !HasSubstring(s, "://") ==> r == "http://" + s
  {
    if HasSubstring(s, "://") then s
    else
      var r := "http://" + s;
      assert OccursAt(r, "://", 4);
      r
  }

  predicate Downloadable(parsed: Option<ParsedUrl>)
  {
    parsed.Some? && !parsed.value.isFileUrl && parsed.value.host.Some?
  }

  /**
   * The guards of `beginDownload(from: String)`: an empty string is refused
   * with an empty message; otherwise the string, with a scheme put in front if
   * it lacks one, must parse to a URL that is not a file URL and has a host, and
   * is refused with that string as the message if not.
   */
  function CheckUrlString(s: string, parser: UrlParser): (r: UrlCheck)
    ensures s == [] ==> r == Rejected("")
    ensures r.Accepted? <==> s != [] && Downloadable(parser.parse(WithScheme(s)))
    ensures r.Accepted? ==> parser.parse(WithScheme(s)).value.url == r.url
    ensures r.Rejected? && s != [] ==> r.message == WithScheme(s)
  {
    if s == [] then Rejected("")
    else
      var urlString := WithScheme(s);
      var parsed := parser.parse(urlString);
      if parsed.Some? && !parsed.value.isFileUrl && parsed.value.host.Some? then Accepted(parsed.value.url)
      else Rejected(urlString)
  }

  /** A string in which the first character of `sub` never occurs does not contain `sub`. */
  lemma NoSubstringWithoutFirstChar(s: string, sub: string)
    requires |sub| > 0 && sub[0] !in s
    ensures !HasSubstring(s, sub)
  {
  }

  /**
   * `example.com/file` is read as `http://example.com/file` and, when that
   * parses to a URL with a host that is not a file URL, is accepted.
   */
  lemma CheckUrlStringExample(s: string, parser: UrlParser, parsed: ParsedUrl)
    requires s == "example.com/file"
    requires parser.parse("http://example.com/file") == Some(parsed)
    requires !parsed.isFileUrl && parsed.host.Some?
    ensures WithScheme(s) == "http://example.com/file"
    ensures CheckUrlString(s, parser) == Accepted(parsed.url)
  {
    ExampleHasNoScheme(s);
    assert "http://" + s == "http://example.com/file";
  }

  lemma ExampleHasNoScheme(s: string)
    requires s == "example.com/file"
    ensures !HasSubstring(s, "://")
  {
    assert ':' !in s;
    NoSubstringWithoutFirstChar(s, "://");
  }

  // ---------------------------------------------------------------------------
  // The observer's view of the registry

  /**
   * What a progress view that starts out empty and follows the events makes of
   * them: the number of rows it shows, or `None` once an event names a row it
   * cannot have (an insertion not at the end, an update or a removal past the
   * end). A bulk cancellation makes the view reload, which leaves it empty.
   */
  function Replay(events: seq<ProgressEvent>): Option<nat>
  {
    if events == [] then Some(0)
    else
      match Replay(events[..|events| - 1])
      case None => None
      case Some(rows) => ReplayStep(rows, events[|events| - 1])
  }

  function ReplayStep(rows: nat, e: ProgressEvent): Option<nat>
  {
    match e
    case DownloadBegan(i) => if i == rows then Some(rows + 1) else None
    case DownloadPaused(i) => if i < rows then Some(rows) else None
    case DownloadResumed(i) => if i < rows then Some(rows) else None
    case GotProgress(i, _) => if i < rows then Some(rows) else None
    case DownloadCancelled(i) => if i < rows then Some(rows - 1) else None
    case DownloadCompleted(i, _, _) => if i < rows then Some(rows - 1) else None
    case DownloadsCancelled => Some(0)
    case ShowError(_, _) => Some(rows)
  }

  lemma ReplayAppend(events: seq<ProgressEvent>, e: ProgressEvent)
    ensures Replay(events + [e]) == match Replay(events) case None => None case Some(rows) => ReplayStep(rows, e)
  {
    assert (events + [e])[..|events|] == events;
  }

  // ---------------------------------------------------------------------------
  // The per-URL state machine

  /**
   * The moves a URL's entry may make in one step: stay, disappear, appear as
   * active, go from active to suspending, from suspending to suspended, or from
   * suspended to active.
   */
  predicate Allowed(before: Option<DownloadState>, after: Option<DownloadState>)
  {
    || before == after
    || after.None?
    || (before.None? && after.value.Active?)
    || (before.Some? && before.value.Active? && after == Some(Suspending))
    || (before == Some(Suspending) && after.value.Suspended?)
    || (before.Some? && before.value.Suspended? && after.value.Active?)
  }

  /** Every URL's entry makes an allowed move from `d0` to `d1`. */
  ghost predicate Transition(d0: Registry, d1: Registry)
  {
    forall u :: Allowed(Lookup(d0, u), Lookup(d1, u))
  }

  /** Assigning a state that the key's entry may move to is a transition. */
  lemma TransitionAssign(d: Registry, url: Url, state: DownloadState)
    requires DistinctKeys(d) && Allowed(Lookup(d, url), Some(state))
    ensures Transition(d, Assign(d, url, state))
  {
  }

  /** Removing an entry is a transition. */
  lemma TransitionRemove(d: Registry, i: nat)
    requires DistinctKeys(d) && i < |d|
    ensures Transition(d, RemoveAt(d, i))
  {
    RemoveAtLookup(d, i);
  }

  /** Emptying the registry is a transition. */
  lemma TransitionClear(d: Registry)
    ensures Transition(d, [])
  {
  }

  /** Active entries run tasks that the session has issued, each task in one entry only. */
  ghost predicate TasksIssued(d: Registry, nextTask: nat)
  {
    && (forall i :: 0 <= i < |d| && d[i].1.Active? ==> d[i].1.handle.id < nextTask)
    && (forall i, j :: 0 <= i < j < |d| && d[i].1.Active? && d[j].1.Active? ==> d[i].1.handle != d[j].1.handle)
  }

  /** `downloads.index(where: {$0.value.task == task})`. */
  function IndexOfTask(d: Registry, task: TaskId): (r: Option<nat>)
    ensures r.Some? ==> r.value < |d| && d[r.value].1 == Active(task)
    ensures r.Some? ==> forall j :: 0 <= j < r.value ==> d[j].1 != Active(task)
    ensures r.None? <==> forall j :: 0 <= j < |d| ==> d[j].1 != Active(task)
  {
    if d == [] then None
    else if d[0].1.Task() == Some(task) then Some(0)
    else
      match IndexOfTask(d[1..], task)
      case Some(i) => Some(i + 1)
      case None => None
  }

  /** What cancelling an entry asks of the transport: to cancel its task, if it runs one. */
  function CancelCalls(state: DownloadState): seq<TransportCall>
  {
    match state.Task()
    case Some(task) => [Cancel(task)]
    case None => []
  }

  /** The cancellations `cancelAll` issues for the entries of `d`, in order. */
  function CancelAllCalls(d: Registry): (calls: seq<TransportCall>)
    ensures |calls| <= |d|
  {
    if d == [] then [] else CancelAllCalls(d[..|d| - 1]) + CancelCalls(d[|d| - 1].1)
  }

  /** `cancelAll` cancels the running tasks of the registry and nothing else. */
  lemma {:induction false} CancelAllCallsCancelRunning(d: Registry)
    ensures forall k :: 0 <= k < |CancelAllCalls(d)| ==>
      CancelAllCalls(d)[k].Cancel? && exists i :: 0 <= i < |d| && d[i].1 == Active(CancelAllCalls(d)[k].task)
    ensures forall i :: 0 <= i < |d| && d[i].1.Active? ==> Cancel(d[i].1.handle) in CancelAllCalls(d)
  {
    if d != [] {
      var init := d[..|d| - 1];
      CancelAllCallsCancelRunning(init);
      assert forall i :: 0 <= i < |init| ==> init[i] == d[i];
      var calls, before := CancelAllCalls(d), CancelAllCalls(init);
      forall k | 0 <= k < |calls|
        ensures calls[k].Cancel? && exists i :: 0 <= i < |d| && d[i].1 == Active(calls[k].task)
      {
        var last := d[|d| - 1].1;
        assert calls == before + CancelCalls(last);
        if k < |before| {
          assert calls[k] == before[k];
          var i :| 0 <= i < |init| && init[i].1 == Active(before[k].task);
          assert d[i].1 == Active(calls[k].task);
        } else {
          assert calls[k] == Cancel(last.Task().value);
          assert d[|d| - 1].1 == Active(calls[k].task);
        }
      }
    }
  }

  /** One step of the restore loop: register a live task whose URL is not yet registered. */
  function RestoreStep(d: Registry, live: LiveTask): (r: Registry)
    ensures d <= r && |r| <= |d| + 1
  {
    match live.originalUrl
    case Some(url) => if HasKey(d, url) then d else d + [(url, Active(live.task))]
    case None => d
  }

  /** The registry after the restore loop has gone through `live` in order. */
  function Restored(live: seq<LiveTask>): (d: Registry)
    ensures |d| <= |live|
  {
    if live == [] then [] else RestoreStep(Restored(live[..|live| - 1]), live[|live| - 1])
  }

  /**
   * One pass of the restore loop keeps keys distinct; it appends exactly when
   * the live task has an original URL that is not registered, and then appends
   * that URL as active with the task.
   */
  lemma RestoreStepAppends(d: Registry, live: LiveTask)
    ensures DistinctKeys(d) ==> DistinctKeys(RestoreStep(d, live))
    ensures |RestoreStep(d, live)| == |d| + 1 <==> live.originalUrl.Some? && !HasKey(d, live.originalUrl.value)
    ensures |RestoreStep(d, live)| == |d| + 1 ==> RestoreStep(d, live)[|d|] == (live.originalUrl.value, Active(live.task))
  {
  }

  /** The restored registry has distinct keys. */
  lemma {:induction false} RestoredDistinct(live: seq<LiveTask>)
    ensures DistinctKeys(Restored(live))
  {
    if live != [] {
      RestoredDistinct(live[..|live| - 1]);
      RestoreStepAppends(Restored(live[..|live| - 1]), live[|live| - 1]);
    }
  }

  /** After restoring, exactly the URLs of the live tasks are registered. */
  lemma {:induction false} RestoredUrls(live: seq<LiveTask>, u: Url)
    ensures HasKey(Restored(live), u) <==> exists i :: 0 <= i < |live| && live[i].originalUrl == Some(u)
  {
    if live != [] {
      var init := live[..|live| - 1];
      RestoredUrls(init, u);
      var d := Restored(init);
      var last := live[|live| - 1];
      assert forall i :: 0 <= i < |init| ==> init[i] == live[i];
      if last.originalUrl.Some? && !HasKey(d, last.originalUrl.value) {
        var r := d + [(last.originalUrl.value, Active(last.task))];
        if u == last.originalUrl.value {
          FirstIndex(r, u, |d|);
        } else if HasKey(d, u) {
          FirstIndex(r, u, IndexOf(d, u).value);
        }
      }
    }
  }

  /** Every restored entry is active. */
  lemma {:induction false} RestoredActive(live: seq<LiveTask>)
    ensures forall i :: 0 <= i < |Restored(live)| ==> Restored(live)[i].1.Active?
  {
    if live != [] {
      RestoredActive(live[..|live| - 1]);
    }
  }

  /** The restored registry runs only tasks of the live tasks it went through. */
  lemma {:induction false} RestoredFresh(live: seq<LiveTask>, other: LiveTask)
    requires forall i :: 0 <= i < |live| ==> live[i].task != other.task
    ensures forall i :: 0 <= i < |Restored(live)| ==> Restored(live)[i].1 != Active(other.task)
  {
    if live != [] {
      var init := live[..|live| - 1];
      assert forall i :: 0 <= i < |init| ==> init[i] == live[i];
      RestoredFresh(init, other);
    }
  }

  /** The restore loop's pass at `k` extends the registry restored so far, which does not run the task at `k`. */
  lemma RestoredNext(live: seq<LiveTask>, k: nat)
    requires forall i, j :: 0 <= i < j < |live| ==> live[i].task != live[j].task
    requires k < |live|
    ensures Restored(live[..k + 1]) == RestoreStep(Restored(live[..k]), live[k])
    ensures forall i :: 0 <= i < |Restored(live[..k])| ==> Restored(live[..k])[i].1 != Active(live[k].task)
  {
    assert live[..k + 1][..k] == live[..k];
    assert forall i :: 0 <= i < k ==> live[..k][i] == live[i];
    RestoredFresh(live[..k], live[k]);
  }

  /** The calls starting the tasks of the registry's active entries, in order. */
  function StartCalls(d: Registry): seq<TransportCall>
  {
    if d == [] then []
    else
      StartCalls(d[..|d| - 1]) + match d[|d| - 1].1.Task() case Some(task) => [Start(task)] case None => []
  }

  /** Registering an active entry at the end adds the call starting its task. */
  lemma StartCallsAppend(d: Registry, url: Url, task: TaskId)
    ensures StartCalls(d + [(url, Active(task))]) == StartCalls(d) + [Start(task)]
  {
    assert (d + [(url, Active(task))])[..|d|] == d;
  }

  /** A task id above those of all the live tasks, from which new ids are drawn. */
  function IdBound(live: seq<LiveTask>): (bound: nat)
    ensures forall i :: 0 <= i < |live| ==> live[i].task.id < bound
  {
    if live == [] then 0
    else
      var rest := IdBound(live[1..]);
      assert forall i :: 1 <= i < |live| ==> live[i] == live[1..][i - 1];
      if live[0].task.id < rest then rest else live[0].task.id + 1
  }

  // ---------------------------------------------------------------------------
  // Finding: the resume-data callback as written

  /**
   * The resume-data callback of `pauseDownload` as written: it assigns
   * `.suspended(data)` to the URL whatever the registry holds by then.
   */
  function ResumeDataAsWritten(d: Registry, url: Url, data: Option<ResumeData>): (r: Registry)
    ensures Lookup(r, url) == Some(Suspended(data))
    ensures forall u :: u != url ==> Lookup(r, u) == Lookup(d, u)
  {
    Assign(d, url, Suspended(data))
  }

  /**
   * If the download was cancelled between the pause and the callback, the
   * callback puts the URL back at the end of the registry: an entry that was
   * never suspending becomes suspended, and the view, which is not told, is one
   * row short from then on.
   */
  lemma ResumeDataAsWrittenDesyncs(d: Registry, events: seq<ProgressEvent>, url: Url, data: Option<ResumeData>)
    requires DistinctKeys(d) && !HasKey(d, url)
    requires Replay(events) == Some(|d|)
    ensures var r := ResumeDataAsWritten(d, url, data);
      && |r| == |d| + 1 && r[|d|] == (url, Suspended(data))
      && !Allowed(Lookup(d, url), Lookup(r, url))
      && Replay(events) != Some(|r|)
  {
  }

  /** If the URL was cancelled and begun again, the callback overwrites the new active entry. */
  lemma ResumeDataAsWrittenClobbers(d: Registry, url: Url, task: TaskId, data: Option<ResumeData>)
    requires DistinctKeys(d) && Lookup(d, url) == Some(Active(task))
    ensures !Allowed(Lookup(d, url), Lookup(ResumeDataAsWritten(d, url, data), url))
  {
  }

  // ---------------------------------------------------------------------------
  // The manager

  class DownloadManager {
    var downloads: Registry
    var events: seq<ProgressEvent>
    var transport: seq<TransportCall>
    var nextTask: nat

    ghost predicate Valid()
      reads this
    {
      && DistinctKeys(downloads)
      && TasksIssued(downloads, nextTask)
      && Replay(events) == Some(|downloads|)
    }

    /** Nothing observable changed. */
    twostate predicate Unchanged()
      reads this
    {
      && downloads == old(downloads)
      && events == old(events)
      && transport == old(transport)
      && nextTask == old(nextTask)
    }

    /**
     * The manager starts with an empty registry and re-registers, in order, each
     * task the transport kept alive whose original URL is not registered yet,
     * starting it and announcing it at the end of the list.
     */
    constructor (live: seq<LiveTask>)
      requires forall i, j :: 0 <= i < j < |live| ==> live[i].task != live[j].task
      ensures Valid()
      ensures downloads == Restored(live)
      ensures events == BeganEvents(|downloads|)
      ensures transport == StartCalls(downloads)
    {
      downloads := [];
      events := [];
      transport := [];
      nextTask := IdBound(live);
      new;
      RestoreAll(live);
    }

    /** The restore loop: each live task in turn, starting from an empty manager. */
    method RestoreAll(live: seq<LiveTask>)
      requires forall i, j :: 0 <= i < j < |live| ==> live[i].task != live[j].task
      requires downloads == [] && events == [] && transport == [] && nextTask == IdBound(live)
      modifies this
      ensures Valid()
      ensures downloads == Restored(live)
      ensures events == BeganEvents(|downloads|)
      ensures transport == StartCalls(downloads)
    {
      ReplayOfBegan(0);
      for k := 0 to |live|
        invariant RestoredUpTo(live, k)
      {
        RestoreNext(live, k);
      }
      assert live[..|live|] == live;
    }

    /** The state after the restore loop has gone through `live[..k]`. */
    ghost predicate RestoredUpTo(live: seq<LiveTask>, k: nat)
      reads this
      requires k <= |live|
    {
      && downloads == Restored(live[..k])
      && Valid() && nextTask == IdBound(live)
      && events == BeganEvents(|downloads|)
      && transport == StartCalls(downloads)
    }

    /** The body of the restore loop for the live task at `k`. */
    method RestoreNext(live: seq<LiveTask>, k: nat)
      requires forall i, j :: 0 <= i < j < |live| ==> live[i].task != live[j].task
      requires k < |live| && RestoredUpTo(live, k)
      modifies this
      ensures RestoredUpTo(live, k + 1)
    {
      RestoredNext(live, k);
      ghost var before := downloads;
      RestoreTask(live[k]);
      if |downloads| > |before| {
        StartCallsAppend(before, live[k].originalUrl.value, live[k].task);
        assert events == BeganEvents(|before|) + [DownloadBegan(|before|)];
      }
    }

    /**
     * One pass of the restore loop: a live task whose original URL is not
     * registered is started, registered as active at the end and announced
     * there; any other is passed over.
     */
    method RestoreTask(live: LiveTask)
      requires Valid() && live.task.id < nextTask
      requires forall i :: 0 <= i < |downloads| ==> downloads[i].1 != Active(live.task)
      modifies this
      ensures Valid()
      ensures downloads == RestoreStep(old(downloads), live)
      ensures nextTask == old(nextTask)
      ensures if |downloads| == |old(downloads)| then events == old(events) && transport == old(transport)
        else events == old(events) + [DownloadBegan(|old(downloads)|)] && transport == old(transport) + [Start(live.task)]
    {
      if live.originalUrl.None? || HasKey(downloads, live.originalUrl.value) {
        return;
      }
      var url := live.originalUrl.value;
      transport := transport + [Start(live.task)];
      downloads := Assign(downloads, url, Active(live.task));
      ReplayAppend(events, DownloadBegan(|downloads| - 1));
      events := events + [DownloadBegan(|downloads| - 1)];
    }

    /**
     * `beginDownload(from: URL)`: a URL already registered is left alone;
     * otherwise a new task is created for it, registered as active at the end,
     * started, and announced at its position.
     */
    method BeginDownload(url: Url)
      requires Valid()
      modifies this
      ensures Valid() && Transition(old(downloads), downloads)
      ensures Began(url)
    {
      if HasKey(downloads, url) {
        return;
      }
      var task := TaskId(nextTask);
      nextTask := nextTask + 1;
      transport := transport + [Create(task, FromUrl(url))];
      TransitionAssign(downloads, url, Active(task));
      downloads := Assign(downloads, url, Active(task));
      transport := transport + [Start(task)];
      ReplayAppend(events, DownloadBegan(|downloads| - 1));
      events := events + [DownloadBegan(|downloads| - 1)];
    }

    /** The effect `beginDownload(from: URL)` has on the manager. */
    twostate predicate Began(url: Url)
      reads this
    {
      if old(HasKey(downloads, url)) then Unchanged()
      else
        var task := TaskId(old(nextTask));
        && downloads == old(downloads) + [(url, Active(task))]
        && events == old(events) + [DownloadBegan(|old(downloads)|)]
        && transport == old(transport) + [Create(task, FromUrl(url)), Start(task)]
        && nextTask == old(nextTask) + 1
    }

    /**
     * `beginDownload(from: String)`: a string refused by the guards raises an
     * "Invalid URL" error and changes nothing else; an accepted one begins the
     * download of its URL, and the answer is true even when that URL was
     * already registered.
     */
    method BeginDownloadFromString(s: string, parser: UrlParser) returns (accepted: bool)
      requires Valid()
      modifies this
      ensures Valid() && Transition(old(downloads), downloads)
      ensures accepted <==> CheckUrlString(s, parser).Accepted?
      ensures accepted ==> Began(CheckUrlString(s, parser).url)
      ensures !accepted ==>
        && downloads == old(downloads) && transport == old(transport) && nextTask == old(nextTask)
        && events == old(events) + [ShowError(CheckUrlString(s, parser).message, "Invalid URL")]
    {
      var check := CheckUrlString(s, parser);
      match check
      case Rejected(message) =>
        ReplayAppend(events, ShowError(message, "Invalid URL"));
        events := events + [ShowError(message, "Invalid URL")];
        accepted := false;
      case Accepted(url) =>
        BeginDownload(url);
        accepted := true;
    }

    /**
     * `pauseDownload`: only an active entry is paused; it becomes suspending in
     * place, its task is asked to cancel and produce resume data, and the pause
     * is announced at the entry's position.
     */
    method PauseDownload(url: Url)
      requires Valid()
      modifies this
      ensures Valid() && Transition(old(downloads), downloads)
      ensures var state := old(Lookup(downloads, url));
        if state.Some? && state.value.Active? then
          var i := old(IndexOf(downloads, url)).value;
          && downloads == old(downloads)[i := (url, Suspending)]
          && events == old(events) + [DownloadPaused(i)]
          && transport == old(transport) + [CancelProducingResumeData(state.value.handle)]
          && nextTask == old(nextTask)
        else Unchanged()
    {
      var index := IndexOf(downloads, url);
      if index.None? {
        return;
      }
      var state := downloads[index.value].1;
      if state.Task().None? {
        return;
      }
      var task := state.Task().value;
      TransitionAssign(downloads, url, Suspending);
      AssignInPlace(downloads, url, Suspending);
      downloads := Assign(downloads, url, Suspending);
      transport := transport + [CancelProducingResumeData(task)];
      ReplayAppend(events, DownloadPaused(index.value));
      events := events + [DownloadPaused(index.value)];
    }

    /**
     * The resume-data callback of a pause, corrected: the entry becomes
     * suspended with the data only if it is still suspending; a URL that was
     * cancelled, or begun again, in the meantime is left as it is.
     */
    method ResumeDataArrived(url: Url, data: Option<ResumeData>)
      requires Valid()
      modifies this
      ensures Valid() && Transition(old(downloads), downloads)
      ensures events == old(events) && transport == old(transport) && nextTask == old(nextTask)
      ensures old(Lookup(downloads, url)) == Some(Suspending) ==>
        downloads == old(downloads)[old(IndexOf(downloads, url)).value := (url, Suspended(data))]
      ensures old(Lookup(downloads, url)) != Some(Suspending) ==> downloads == old(downloads)
    {
      if Lookup(downloads, url) == Some(Suspending) {
        TransitionAssign(downloads, url, Suspended(data));
        AssignInPlace(downloads, url, Suspended(data));
        downloads := Assign(downloads, url, Suspended(data));
      }
    }

    /**
     * `resumeDownload`: only a suspended entry is resumed; a new task is made
     * from its resume data, or from the URL when there is none, the entry
     * becomes active with it in place, the task is started and the resumption
     * is announced at the entry's position.
     */
    method ResumeDownload(url: Url)
      requires Valid()
      modifies this
      ensures Valid() && Transition(old(downloads), downloads)
      ensures var state := old(Lookup(downloads, url));
        if state.Some? && state.value.Suspended? then
          var i := old(IndexOf(downloads, url)).value;
          var task := TaskId(old(nextTask));
          var source := if state.value.resumeData.Some? then FromResumeData(state.value.resumeData.value) else FromUrl(url);
          && downloads == old(downloads)[i := (url, Active(task))]
          && events == old(events) + [DownloadResumed(i)]
          && transport == old(transport) + [Create(task, source), Start(task)]
          && nextTask == old(nextTask) + 1
        else Unchanged()
    {
      var index := IndexOf(downloads, url);
      if index.None? {
        return;
      }
      var state := downloads[index.value].1;
      if !state.Suspended? {
        return;
      }
      var task := TaskId(nextTask);
      nextTask := nextTask + 1;
      var source := match state.resumeData case Some(data) => FromResumeData(data) case None => FromUrl(url);
      transport := transport + [Create(task, source)];
      TransitionAssign(downloads, url, Active(task));
      AssignInPlace(downloads, url, Active(task));
      downloads := Assign(downloads, url, Active(task));
      transport := transport + [Start(task)];
      ReplayAppend(events, DownloadResumed(index.value));
      events := events + [DownloadResumed(index.value)];
    }

    /**
     * `cancelDownload`: the URL's entry, whatever its state, is removed, the
     * others keep their order, its task is cancelled if it runs one, and the
     * removal is announced at the position the entry had.
     */
    method CancelDownload(url: Url)
      requires Valid()
      modifies this
      ensures Valid() && Transition(old(downloads), downloads)
      ensures Cancelled(url)
    {
      var (removed, rest) := RemoveValue(downloads, url);
      if removed.None? {
        return;
      }
      var (index, state) := removed.value;
      TransitionRemove(downloads, index);
      downloads := rest;
      transport := transport + CancelCalls(state);
      ReplayAppend(events, DownloadCancelled(index));
      events := events + [DownloadCancelled(index)];
    }

    /** The effect `cancelDownload` has on the manager. */
    twostate predicate Cancelled(url: Url)
      reads this
    {
      if old(HasKey(downloads, url)) then
        var i := old(IndexOf(downloads, url)).value;
        && downloads == RemoveAt(old(downloads), i)
        && events == old(events) + [DownloadCancelled(i)]
        && transport == old(transport) + CancelCalls(old(downloads)[i].1)
        && nextTask == old(nextTask)
      else Unchanged()
    }

    /**
     * `cancelAll`: every running task is cancelled, the registry is emptied,
     * and the view gets one bulk notification rather than one per entry.
     */
    method CancelAll()
      requires Valid()
      modifies this
      ensures Valid() && Transition(old(downloads), downloads)
      ensures downloads == []
      ensures events == old(events) + [DownloadsCancelled]
      ensures transport == old(transport) + CancelAllCalls(old(downloads))
      ensures nextTask == old(nextTask)
    {
      CancelTasks();
      TransitionClear(downloads);
      downloads := [];
      ReplayAppend(events, DownloadsCancelled);
      events := events + [DownloadsCancelled];
    }

    /** The loop of `cancelAll`: each entry's task, if it runs one, is cancelled in order. */
    method CancelTasks()
      modifies this
      ensures downloads == old(downloads) && events == old(events) && nextTask == old(nextTask)
      ensures transport == old(transport) + CancelAllCalls(downloads)
    {
      for i := 0 to |downloads|
        invariant downloads == old(downloads) && events == old(events) && nextTask == old(nextTask)
        invariant transport == old(transport) + CancelAllCalls(downloads[..i])
      {
        assert downloads[..i + 1][..i] == downloads[..i];
        transport := transport + CancelCalls(downloads[i].1);
      }
      assert downloads[..|downloads|] == downloads;
    }

    /** A progress report for a registered task is passed on at its entry's position; others are ignored. */
    method DownloadProgressed(task: TaskId, progress: real)
      requires Valid()
      modifies this
      ensures Valid()
      ensures downloads == old(downloads) && transport == old(transport) && nextTask == old(nextTask)
      ensures var index := IndexOfTask(downloads, task);
        events == old(events) + (if index.Some? then [GotProgress(index.value, progress)] else [])
    {
      var index := IndexOfTask(downloads, task);
      if index.Some? {
        ReplayAppend(events, GotProgress(index.value, progress));
        events := events + [GotProgress(index.value, progress)];
      }
    }

    /**
     * A failed task's download is cancelled as by `cancelDownload`, and a
     * "Download Failed - <reason>" error naming its URL is raised; an unknown
     * task is ignored.
     */
    method DownloadFailed(task: TaskId, reason: string)
      requires Valid()
      modifies this
      ensures Valid() && Transition(old(downloads), downloads)
      ensures var index := old(IndexOfTask(downloads, task));
        if index.Some? then
          var i := index.value;
          var url := old(downloads)[i].0;
          && downloads == RemoveAt(old(downloads), i)
          && events == old(events) + [DownloadCancelled(i), ShowError(url.absoluteString, "Download Failed - " + reason)]
          && transport == old(transport) + [Cancel(task)]
          && nextTask == old(nextTask)
        else Unchanged()
    {
      var index := IndexOfTask(downloads, task);
      if index.None? {
        return;
      }
      var url := downloads[index.value].0;
      IndexOfDistinct(downloads, index.value);
      CancelDownload(url);
      ReplayAppend(events, ShowError(url.absoluteString, "Download Failed - " + reason));
      events := events + [ShowError(url.absoluteString, "Download Failed - " + reason)];
    }

    /**
     * A finished task's entry is removed first; then the completion handler is
     * given the position it had, the temporary file and the preferred file name
     * derived from the response. An unknown task is ignored.
     */
    method DownloadCompleted(task: TaskId, tempPath: Files.Location, response: Response, lookup: MimeLookup)
      requires Valid()
      modifies this
      ensures Valid() && Transition(old(downloads), downloads)
      ensures var index := old(IndexOfTask(downloads, task));
        if index.Some? then
          && downloads == RemoveAt(old(downloads), index.value)
          && events == old(events) + [ProgressEvent.DownloadCompleted(index.value, tempPath, PreferredFilename(response, lookup))]
          && transport == old(transport) && nextTask == old(nextTask)
        else Unchanged()
    {
      var index := IndexOfTask(downloads, task);
      if index.None? {
        return;
      }
      var preferredFilename := PreferredFilename(response, lookup);
      RemoveEntry(index.value, ProgressEvent.DownloadCompleted(index.value, tempPath, preferredFilename));
    }

    /** `downloads.remove(at: i)` followed by the announcement `e` of the removal at `i`. */
    method RemoveEntry(i: nat, e: ProgressEvent)
      requires Valid() && i < |downloads|
      requires ReplayStep(|downloads|, e) == Some(|downloads| - 1)
      modifies this
      ensures Valid() && Transition(old(downloads), downloads)
      ensures downloads == RemoveAt(old(downloads), i)
      ensures events == old(events) + [e]
      ensures transport == old(transport) && nextTask == old(nextTask)
    {
      RemoveAtLookup(downloads, i);
      TransitionRemove(downloads, i);
      downloads := RemoveAt(downloads, i);
      ReplayAppend(events, e);
      events := events + [e];
    }
  }

  /** The announcements of `n` insertions at the end of an empty list. */
  function BeganEvents(n: nat): seq<ProgressEvent>
  {
    if n == 0 then [] else BeganEvents(n - 1) + [DownloadBegan(n - 1)]
  }

  /** A view that was told of `n` insertions at the end shows `n` rows. */
  lemma {:induction false} ReplayOfBegan(n: nat)
    ensures Replay(BeganEvents(n)) == Some(n)
  {
    if n > 0 {
      ReplayOfBegan(n - 1);
      ReplayAppend(BeganEvents(n - 1), DownloadBegan(n - 1));
    }
  }
}
