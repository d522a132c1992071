# Downloads: registry, file naming and file import

This project models the core of the Downloads app for iOS. The core has three parts:

- **The download registry** (`Manager.DownloadManager`). It is an insertion-ordered dictionary from URL to download state. Begin, pause, resume, cancel and cancel-all change it in place. So do the handlers for a task's progress, failure and completion, and so does the restore of live tasks at start-up. Begin, pause, resume, cancel, progress, failure and completion are announced to a progress view at the entry's position. Cancel-all is announced once, in bulk. The callback that stores a paused download's resume data is not announced.
- **The per-download state and the file-name derivation** (`Reusables`). This covers `DownloadState`, the query-string scanner `fileName(forQuery:)`, and `preferredFilename(for:)`, which picks a file name for a finished download.
- **The list of downloaded files** (`Files.DownloadedFileManager`). It imports a file into the documents directory without clobbering an existing one, by trying `"title 2.ext"` … `"title 99.ext"`. It also deletes one file or all of them.

Supporting modules:

- `Options` holds `Option`.
- `Text` holds the Swift string operations the core uses: `components(separatedBy:)`, `.last`, `replacingOccurrences`, `contains`, decimal interpolation and the last index of a character.
- `OrderedDictionary` gives the behaviour the registry relies on from the `OrderedDictionary` of the `Additions` library. It is a sequence of pairs with distinct keys. Assigning to a present key replaces the value in place, assigning to a new key appends, and removing an entry shifts the later ones down.

How the outside world is represented:

- **The progress view and the file view** are event logs (`events`). The manager's log is checked against `Manager.Replay`, which is what a view that starts empty and follows the events would show. `Valid()` keeps the registry's size equal to the number of rows the view has. That is the sense in which every announced index is a position in the registry.
- **The transport session** is a log of the calls made on it (`transport`). Tasks are opaque ids drawn from a counter.
- **The documents directory** is the set of names it holds (`disk`). Any failure of a move, copy or removal other than "file exists" is a parameter `faults: string -> bool`.
- **Foreign calls are parameters:**
  - `URL(string:)` with its `isFileURL` and `host` is the parameter `UrlParser`.
  - `removingPercentEncoding` and the platform's MIME-type-to-extension table are the parameter `MimeLookup`.

Two details of the file naming, as the code does them:

- The title and the MIME type are read from the query of `response.url`, the URL of the response, not of the original request (Downloads/Reusables.swift:63).
- The MIME parameter is percent-decoded, and when decoding fails the raw text is used (Downloads/Reusables.swift:79).

## Model

| member | source | states |
|---|---|---|
| Reusables.DownloadState.Task | Downloads/Reusables.swift:45-48 | A state has a task exactly when it is active, and then it is that state's task. |
| Reusables.DownloadState.IsActive | Downloads/Reusables.swift:49-52 | Holds exactly when the state is neither suspending nor suspended. |
| Text.Split | Downloads/Reusables.swift:72 | Splitting on a separator gives at least one part, and no part contains the separator. |
| Text.JoinSplit | Downloads/Reusables.swift:72 | Joining the parts of a split with the separator gives back the original string. |
| Text.LastComponent | Downloads/Reusables.swift:76 | The text after the last `=` has no `=`, is a suffix of the parameter, and is preceded by `=` when shorter than the parameter. |
| Text.ReplacePlus | Downloads/Reusables.swift:76 | Every `+` becomes a space, every other character is kept in place, and no `+` remains. |
| Reusables.ParamValue | Downloads/Reusables.swift:76-78 | The value of `key=value` (with no `=` in either part) is `value`. |
| Reusables.TwoParams | Downloads/Reusables.swift:72 | A query made of two `&`-free parameters joined by `&` yields exactly those two parameters. |
| Reusables.LastMatch | Downloads/Reusables.swift:73-84 | The left-to-right scan ends on the last parameter a test accepts: that parameter passes, none after it does, and the result is `None` exactly when none passes. |
| Reusables.TitleValue | Downloads/Reusables.swift:76 | A title parameter's value is no longer than the parameter and has no `=` and no `+` left: it is the text after the last `=`, with each `+` read as a space. |
| Reusables.MimeExtension | Downloads/Reusables.swift:78-81 | The extension a `mime` parameter maps to: the text after its last `=` is percent-decoded, or kept raw when decoding fails, and looked up in the platform's table. |
| Reusables.LastTitleParam | Downloads/Reusables.swift:73-76 | Finds the last parameter that starts with `title` or `name`, so a later one overrides an earlier one. It is `None` exactly when there is none. |
| Reusables.LastExtensionParam | Downloads/Reusables.swift:77-83 | Finds the last `mime` parameter (one that is not a title parameter) whose decoded MIME type maps to an extension. A `mime` parameter that maps to nothing leaves the earlier extension. It is `None` exactly when there is none. |
| Reusables.QueryFileName | Downloads/Reusables.swift:71-87 | The query's title is present exactly when some parameter is a title parameter, and its extension exactly when some parameter sets one. |
| Reusables.FileNameForQuery | Downloads/Reusables.swift:71-87 | The left-to-right loop returns exactly the value of the last title parameter and the extension of the last `mime` parameter that maps to one. |
| Reusables.PreferredFilename | Downloads/Reusables.swift:62-70 | The name for a finished download. Its meaning is stated by `PreferredFilenameChoice`, the row below. |
| Reusables.PreferredFilenameChoice | Downloads/Reusables.swift:62-70 | The title is the query's title, else the suggested file name, else the response URL's last path component, else `file`. The query's extension is appended after a dot when there is one, and otherwise the title is returned unchanged. |
| Reusables.TitleThenMime | Downloads/Reusables.swift:62-87 | A query made of a title parameter and then an extension-setting `mime` parameter names the file with the title's value, a dot and that extension. |
| Reusables.PreferredFilenameExample | Downloads/Reusables.swift:62-87 | `title=My+Video&mime=video%2Fmp4` names the file `My Video.mp4` when the platform maps `video/mp4` to `mp4`. |
| OrderedDictionary.IndexOf | Downloads/DownloadManager.swift:75 | `keys.index(of:)` gives the first position holding the key, or `None` exactly when the key is absent. |
| OrderedDictionary.Lookup | Downloads/DownloadManager.swift:83 | A subscript read is present exactly when the key is, and with distinct keys it is the value stored under the key. |
| OrderedDictionary.Assign | Downloads/DownloadManager.swift:70 | A subscript write keeps keys distinct and makes the key map to the value. Every other key keeps its value. A present key keeps its position and every other position is untouched. A new key is appended at the end. |
| OrderedDictionary.RemoveAt | Downloads/DownloadManager.swift:115 | `remove(at:)` drops exactly that position and keeps the order of the others. |
| OrderedDictionary.RemoveAtLookup | Downloads/DownloadManager.swift:115 | After a removal the keys are still distinct and the removed key is gone. Every other key keeps its value, and its position moves down by one if it was after the removed one. |
| OrderedDictionary.RemoveValue | Downloads/DownloadManager.swift:90 | `removeValue(forKey:)` returns `None` and changes nothing when the key is absent. Otherwise it returns the entry's old position and value and removes exactly that position. |
| Text.HasSubstring | Downloads/DownloadManager.swift:60 | Holds exactly when the substring occurs at some position. |
| Manager.WithScheme | Downloads/DownloadManager.swift:60-62 | A string that contains `://` is kept. Any other string gets `http://` in front. Either way the result contains `://` and ends with the input. |
| Manager.CheckUrlString | Downloads/DownloadManager.swift:57-63 | An empty string is refused with an empty message. Otherwise the string is accepted exactly when, with a scheme added where missing, it parses to a URL that is not a file URL and has a host. An accepted string gives that URL, and a refused one is reported with the scheme-completed string. |
| Manager.CheckUrlStringExample | Downloads/DownloadManager.swift:60-63 | `example.com/file` is parsed as `http://example.com/file` and is accepted when that parses to a non-file URL with a host. |
| Manager.IndexOfTask | Downloads/DownloadManager.swift:103 | `index(where: {$0.value.task == task})` gives the first position whose state is active with that task, or `None` exactly when no entry runs it. |
| Manager.CancelAllCalls | Downloads/DownloadManager.swift:95 | The calls `cancelAll` issues, one per running entry at most, so never more calls than entries. |
| Manager.CancelAllCallsCancelRunning | Downloads/DownloadManager.swift:95 | Every call issued is a cancellation of a task that an entry runs, and every running task is cancelled. |
| Manager.RestoreStep | Downloads/DownloadManager.swift:44-46 | One pass of the restore loop only ever adds, at the end, and at most one entry. |
| Manager.RestoreStepAppends | Downloads/DownloadManager.swift:44-46 | One pass keeps keys distinct. It adds exactly when the live task has an original URL that is not registered, and then adds that URL as active with the task. |
| Manager.Restored | Downloads/DownloadManager.swift:43-49 | The registry after the restore loop has at most one entry per live task. |
| Manager.RestoredDistinct | Downloads/DownloadManager.swift:43-49 | The registry after the restore loop has distinct keys. |
| Manager.RestoredUrls | Downloads/DownloadManager.swift:43-49 | After the restore loop, exactly the original URLs of the live tasks are registered. |
| Manager.RestoredActive | Downloads/DownloadManager.swift:47 | Every restored entry is active. |
| Manager.RestoredFresh | Downloads/DownloadManager.swift:43-47 | The restored registry runs only tasks of the live tasks it went through, so a later live task's id is not yet in use. |
| Manager.ReplayOfBegan | Downloads/DownloadManager.swift:47 | A view told of `n` insertions, each at the current end, shows `n` rows. |
| Manager.ResumeDataAsWritten | Downloads/DownloadManager.swift:77-79 | The callback as written: the URL maps to `.suspended(data)` afterwards whatever it held before, and every other URL keeps its value. |
| Manager.ResumeDataAsWrittenDesyncs | Downloads/DownloadManager.swift:77-79 | As written, a callback arriving after a cancellation appends a suspended entry for the URL. That move is not in the state machine, and the view, which is not told, is left one row short. |
| Manager.ResumeDataAsWrittenClobbers | Downloads/DownloadManager.swift:77-79 | As written, a callback arriving after the URL was begun again overwrites the new active entry. That move is not in the state machine. |
| Manager.DownloadManager.constructor | Downloads/DownloadManager.swift:37-52 | Starting from an empty registry, each live task whose original URL is not yet registered is started, registered as active at the end and announced there. The registry is the restored one, the view shows one row per entry, the keys are distinct, and the transport was asked to start exactly the restored entries' tasks, in order. |
| Manager.DownloadManager.RestoreAll | Downloads/DownloadManager.swift:43-49 | The restore loop over the live tasks ends with the restored registry, one insertion announced per entry, and one start call per entry. |
| Manager.DownloadManager.RestoreTask | Downloads/DownloadManager.swift:44-47 | One pass of the restore loop registers, starts and announces at the end a live task with a new URL. It leaves everything alone otherwise. |
| Manager.DownloadManager.BeginDownload | Downloads/DownloadManager.swift:67-73 | A registered URL is a no-op. Otherwise a task is created and started, exactly one active entry is appended, and `downloadBegan(count-1)` is emitted. Keys stay distinct and the view stays in step. |
| Manager.DownloadManager.BeginDownloadFromString | Downloads/DownloadManager.swift:57-66 | A refused string raises "Invalid URL" with the refusal message, returns false and changes nothing else. An accepted string begins its URL and returns true, even when the URL was already registered. |
| Manager.DownloadManager.PauseDownload | Downloads/DownloadManager.swift:74-81 | Only an active entry is paused. It becomes suspending at the same position, its task is asked to cancel with resume data, and `downloadPaused(index)` is emitted. Any other URL changes nothing. |
| Manager.DownloadManager.ResumeDataArrived | Downloads/DownloadManager.swift:77-79 | Corrected callback: a suspending entry becomes suspended with the data at the same position, and any other registry is left unchanged. Nothing is emitted or called. |
| Manager.DownloadManager.ResumeDownload | Downloads/DownloadManager.swift:82-88 | Only a suspended entry is resumed. A new task is made from its resume data, or from the URL without data, and is started. The entry becomes active with it at the same position and `downloadResumed(index)` is emitted. Any other URL changes nothing. |
| Manager.DownloadManager.CancelDownload | Downloads/DownloadManager.swift:89-93 | Exactly the URL's entry is removed and the others keep their order. Its task is cancelled if it runs one, and `downloadCancelled` is emitted with the entry's old position. An absent URL changes nothing. |
| Manager.DownloadManager.CancelTasks | Downloads/DownloadManager.swift:95 | The loop over the registry issues exactly the cancellations `CancelAllCalls` lists, and changes nothing else. |
| Manager.DownloadManager.CancelAll | Downloads/DownloadManager.swift:94-98 | Every running task is cancelled, the registry is left empty, and exactly one `downloadsCancelled` is emitted. |
| Manager.DownloadManager.DownloadProgressed | Downloads/DownloadManager.swift:102-105 | Progress for a registered task is passed on at its entry's position. An unknown task emits nothing. The registry never changes. |
| Manager.DownloadManager.DownloadFailed | Downloads/DownloadManager.swift:107-112 | A failed task's entry is cancelled as by `cancelDownload`. Then an error naming its URL, titled "Download Failed - " plus the reason, is raised. An unknown task changes nothing. |
| Manager.DownloadManager.DownloadCompleted | Downloads/DownloadManager.swift:113-118 | The finished task's entry is removed first. Then the completion handler gets the old position, the temporary file and the preferred file name of the response. An unknown task changes nothing. |
| Manager.DownloadManager.RemoveEntry | Downloads/DownloadManager.swift:115 | Removing an entry and announcing it at its position keeps keys distinct, keeps the view in step and is an allowed transition. |
| Text.LastIndexOf | Downloads/DownloadedFileManager.swift:51-52 | Gives the position of the last occurrence of the character, or `None` exactly when it does not occur. |
| Files.SplitExtension | Downloads/DownloadedFileManager.swift:51-52 | The extension has no dot. A name with a dot after its first character is title, dot and extension with a non-empty title, so it is split at its last dot. A name with no such dot has itself as title and an empty extension. |
| Text.DecimalString | Downloads/DownloadedFileManager.swift:54 | The interpolated number is a non-empty string of digits, with at least two digits exactly from 10 on. |
| Text.DecimalStringValue | Downloads/DownloadedFileManager.swift:54 | The interpolated digits denote the number itself, and start with `0` exactly when the number is zero. |
| Text.DecimalStringInjective | Downloads/DownloadedFileManager.swift:54 | Different numbers are written differently. |
| Files.Outcome | Downloads/DownloadedFileManager.swift:34-47 | A move or copy onto a name fails with "file exists" exactly when the name is taken, and succeeds exactly when it is free and does not fault. |
| Files.CandidateShape | Downloads/DownloadedFileManager.swift:54 | The candidate `"\(title) \(num).\(ext)"` is the title, a space, digits that denote the number, a dot and the extension. |
| Files.CandidatesDistinct | Downloads/DownloadedFileManager.swift:53-54 | Candidate names `"title n.ext"` for different `n` are different. |
| Files.CandidateWithoutExtension | Downloads/DownloadedFileManager.swift:54 | A name without an extension gets candidates that end in a bare dot. |
| Files.FirstFree | Downloads/DownloadedFileManager.swift:53-57 | Gives the first number from 2 to 99 whose candidate can be imported. It is `None` exactly when none can. |
| Files.PlanImport | Downloads/DownloadedFileManager.swift:31-61 | A tracked source is ignored. The first target is the preferred name, or else the source's name. A fault other than "file exists" refuses the import. On "file exists" the first importable candidate from 2 to 99 is used, and with none the import is refused with an "already exists" message. A placed target was free and did not fault. |
| Files.CollisionExample | Downloads/DownloadedFileManager.swift:51-57 | `a.txt` imported next to `a.txt` becomes `a 2.txt`, and next to both it becomes `a 3.txt`. |
| Files.Listed | Downloads/DownloadedFileManager.swift:23 | The initial list holds exactly the directory's entries that are not directories. |
| Files.ListedDistinct | Downloads/DownloadedFileManager.swift:23 | A listing with distinct names gives distinct files. |
| Files.ListedOnDisk | Downloads/DownloadedFileManager.swift:23 | Every listed file is in the documents directory under the name of one of its entries. |
| Files.Position | Downloads/DownloadedFileManager.swift:63 | `files.index(of:)` gives the first position of the file, or `None` exactly when it is not tracked. |
| Files.Survivors | Downloads/DownloadedFileManager.swift:72-80 | What survives `deleteAll` is a prefix of the list. Every file after it was removable, and its last file, if any, is the one whose removal failed. |
| Files.SurvivorsUnique | Downloads/DownloadedFileManager.swift:74-77 | Those three properties determine the survivors. |
| Files.DownloadedFileManager.constructor | Downloads/DownloadedFileManager.swift:23 | The list is the directory's non-directory entries, or empty when the listing fails. |
| Files.DownloadedFileManager.ImportTo | Downloads/DownloadedFileManager.swift:34-42 | A move or copy that succeeds appends exactly the target and emits `fileImported(count-1)`. One that fails changes nothing. |
| Files.DownloadedFileManager.ImportFile | Downloads/DownloadedFileManager.swift:31-61 | Carries out `PlanImport`. It appends exactly the chosen target and emits `fileImported(count-1)`, or raises an "Import Error" with `files` unchanged, or does nothing for a tracked source. The tracked files stay distinct files of the directory. |
| Files.DownloadedFileManager.DeleteFile | Downloads/DownloadedFileManager.swift:62-71 | An untracked file changes nothing. A removal that succeeds drops exactly that position, keeps the order of the others, and emits `fileDeleted(index)`. One that fails raises a "Deletion Error" with `files` unchanged. |
| Files.DownloadedFileManager.RemoveLast | Downloads/DownloadedFileManager.swift:75-76 | Removing the last file drops it from the directory and the list and nothing else. |
| Files.RemovedFromBack | Downloads/DownloadedFileManager.swift:74-77 | Taking one more file from the back adds its name to the removed names and its removal to the end of the operations. |
| Files.DownloadedFileManager.RemoveFromBack | Downloads/DownloadedFileManager.swift:73-79 | The loop removes files from the back until a removal fails. What remains is a prefix, every removed file was removable, and a failure leaves the failing file last. The directory loses exactly the removed names, in order from the back. |
| Files.DownloadedFileManager.DeleteAll | Downloads/DownloadedFileManager.swift:72-82 | Files are removed from the back until a removal fails. What remains is `Survivors`, a prefix. A failure raises one "Deletion error", and exactly one `filesDeleted` follows in every case. |
| Files.DownloadedFileManager.DownloadCompleted | Downloads/DownloadedFileManager.swift:86-88 | The index is ignored, and the temporary file is imported under the preferred name by a move. |

## Left out

- The `SessionDelegate` class (Downloads/DownloadManager.swift:121-161) is left out. It is URLSession callback plumbing: the redirect and session errors, the cancelled-error filter of `didCompleteWithError`, the badge count and the background-event handler. The manager-side handlers it calls are modelled, with the progress value, the failure reason and the response as parameters.
- The restore at start-up runs asynchronously on the main queue in the source. The model runs it in the constructor, before any other operation.
- The observer is a weak optional reference in the source. The model always notifies it, so an absent view is not modelled.
- The completion handler is the view when one is set, and the file manager otherwise. The model logs the completion in the manager's event log and models the file manager's side by itself. The two objects are not connected.
- Transport tasks, resume data and the task created from resume data are opaque. Progress is an uninterpreted `real`, and `fractionCompleted` is not modelled.
- Names in the documents directory are single path components. Directory structure and `appendingPathComponent` of a name containing `/` are not modelled.
- Files.SplitExtension: follows the common case of `pathExtension`, the text after the last dot when that dot does not start the name. Platform rules for other odd names are not modelled.
- An empty preferred name is treated as an ordinary name. `preferredFilename` gives `""` for a query `title=` with no extension-setting parameter (Downloads/Reusables.swift:69, 75-76). In the source, `appendingPathComponent("")` (Downloads/DownloadedFileManager.swift:43) then names the documents directory itself, which the model does not represent.
- The response of a completed task is assumed present, as the forced unwrap `task.response!` (Downloads/DownloadManager.swift:116) assumes. A missing response, which would crash, is not modelled.
- The error values of `FileManager` are not modelled. A refused import or deletion reports `SystemError` in their place.
- Strings are sequences of characters. Swift compares strings by grapheme clusters under canonical equivalence in `hasPrefix`, `contains` and `components(separatedBy:)`. The model compares them character by character, so combining marks and Unicode normalisation are not modelled.
- Manager.DownloadManager.ResumeDataArrived: the corrected callback checks only that the entry is `.suspending`. A late callback from an earlier pause of the same URL (pause, cancel, begin, pause again) still stores its data, and the data of the second pause is then dropped. Telling the two pauses apart needs the task in the `.suspending` state, which the source's state does not carry.
- The UI controllers, the app delegate and the action extension are not part of this model.

## Findings

| source | as written | input that shows it | evidently intended | confidence | as-written member | corrected member |
|---|---|---|---|---|---|---|
| Downloads/DownloadManager.swift:77-79 | The resume-data callback of `pauseDownload` assigns `.suspended(data)` to the URL whatever the registry holds when it runs. | Pause a download, then cancel it before the transport delivers the resume data. The callback re-inserts the URL at the end of the registry and no `downloadBegan` is emitted, so the view is one row short. If the URL was begun again in the meantime, the callback turns its running entry into a suspended one instead. `Manager.ResumeDataAsWrittenDesyncs` and `Manager.ResumeDataAsWrittenClobbers` prove both outcomes. | Store the resume data only if the entry is still `.suspending`. A complete fix also ties the callback to the task it paused, for example `.suspending(task)`, because a late callback from an earlier pause of the same URL still finds `.suspending`. | not executed; the interleaving needs the callback to arrive after a cancellation, which the asynchronous transport allows | Manager.ResumeDataAsWritten | Manager.DownloadManager.ResumeDataArrived |
