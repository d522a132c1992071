/**
 * The per-download state and the derivation of a completed download's file
 * name from the server's response (Downloads/Reusables.swift).
 *
 * Transport tasks are opaque ids, resume data is opaque bytes. The platform's
 * percent-decoding and its MIME-type-to-extension table are foreign lookups and
 * are passed in as a `MimeLookup`.
 */
module Reusables {
  import opened Options
  import opened Text

  /** A transport download task, known only by its identity. */
  datatype TaskId = TaskId(id: nat)

  /** Resume data produced by the transport when a task is cancelled for later resumption. */
  type ResumeData = seq<bv8>

  /** Where a registered download stands. */
  datatype DownloadState =
    | Active(handle: TaskId)
    | Suspending
    | Suspended(resumeData: Option<ResumeData>)
  {
    /** The running task: present exactly for an active download. */
    function Task(): (t: Option<TaskId>)
      ensures t.Some? <==> IsActive()
      ensures t.Some? ==> this == Active(t.value)
    {
      match this
      case Active(task) => Some(task)
      case _ => None
    }

    /** Running: neither suspending nor suspended. */
    predicate IsActive()
      ensures IsActive() <==> !(Suspending? || Suspended?)
    {
      match this
      case Active(_) => true
      case _ => false
    }
  }

  /**
   * The foreign lookups used on a `mime` parameter: `removingPercentEncoding`
   * (which fails on malformed input) and the platform's preferred filename
   * extension for a MIME type, if it knows one.
   */
  datatype MimeLookup = MimeLookup(
    percentDecode: string -> Option<string>,
    preferredExtension: string -> Option<string>)

  /** What a query string says about the file's name. */
  datatype QueryInfo = QueryInfo(title: Option<string>, ext: Option<string>)

  /** The part of a response that the name is derived from. */
  datatype ResponseUrl = ResponseUrl(query: Option<string>, lastPathComponent: string)
  datatype Response = Response(url: Option<ResponseUrl>, suggestedFilename: Option<string>)

  predicate IsTitleParam(param: string)
  {
    "title" <= param || "name" <= param
  }

  predicate IsMimeParam(param: string)
  {
    "mime" <= param
  }

  /** A title parameter's value: the text after its last `=`, each `+` read as a space. */
  function TitleValue(param: string): (title: string)
    ensures |title| <= |param| && '=' !in title && '+' !in title
  {
    ReplacePlus(LastComponent(param, '='))
  }

  /** The extension a `mime` parameter maps to, if the platform knows one. */
  function MimeExtension(param: string, lookup: MimeLookup): Option<string>
  {
    var raw := LastComponent(param, '=');
    lookup.preferredExtension(lookup.percentDecode(raw).GetOr(raw))
  }

  /** A parameter that sets the extension: a `mime` parameter that maps to one. */
  predicate SetsExtension(param: string, lookup: MimeLookup)
  {
    !IsTitleParam(param) && IsMimeParam(param) && MimeExtension(param, lookup).Some?
  }

  /** The position of the last parameter that `matches` accepts: the one a left-to-right scan ends on. */
  function LastMatch(params: seq<string>, matches: string -> bool): (r: Option<nat>)
    ensures r.Some? ==> r.value < |params| && matches(params[r.value])
    ensures r.Some? ==> forall j :: r.value < j < |params| ==> !matches(params[j])
    ensures r.None? <==> forall j :: 0 <= j < |params| ==> !matches(params[j])
  {
    if params == [] then None
    else if matches(params[|params| - 1]) then Some(|params| - 1)
    else
      var init := params[..|params| - 1];
      assert forall j :: 0 <= j < |init| ==> init[j] == params[j];
      LastMatch(init, matches)
  }

  /** The position of the last title parameter: the one whose value is kept. */
  function LastTitleParam(params: seq<string>): (r: Option<nat>)
    ensures r.Some? ==> r.value < |params| && IsTitleParam(params[r.value])
    ensures r.Some? ==> forall j :: r.value < j < |params| ==> !IsTitleParam(params[j])
    ensures r.None? <==> forall j :: 0 <= j < |params| ==> !IsTitleParam(params[j])
  {
    LastMatch(params, IsTitleParam)
  }

  /** The position of the last parameter that sets the extension. */
  function LastExtensionParam(params: seq<string>, lookup: MimeLookup): (r: Option<nat>)
    ensures r.Some? ==> r.value < |params| && SetsExtension(params[r.value], lookup)
    ensures r.Some? ==> forall j :: r.value < j < |params| ==> !SetsExtension(params[j], lookup)
    ensures r.None? <==> forall j :: 0 <= j < |params| ==> !SetsExtension(params[j], lookup)
  {
    LastMatch(params, param => SetsExtension(param, lookup))
  }

  function TitleOf(params: seq<string>): (title: Option<string>)
    ensures title.Some? <==> LastTitleParam(params).Some?
  {
    match LastTitleParam(params)
    case Some(i) => Some(TitleValue(params[i]))
    case None => None
  }

  function ExtensionOf(params: seq<string>, lookup: MimeLookup): (ext: Option<string>)
    ensures ext.Some? <==> LastExtensionParam(params, lookup).Some?
  {
    match LastExtensionParam(params, lookup)
    case Some(i) => MimeExtension(params[i], lookup)
    case None => None
  }

  /** The `&`-separated parameters of a query. */
  function Params(query: string): seq<string>
  {
    Split(query, '&')
  }

  /**
   * `fileName(forQuery:)` as a value: the last title parameter and the last
   * extension-setting one win; each is absent exactly when no parameter sets it.
   */
  function QueryFileName(query: string, lookup: MimeLookup): (info: QueryInfo)
    ensures info.title.Some? <==> exists j :: 0 <= j < |Params(query)| && IsTitleParam(Params(query)[j])
    ensures info.ext.Some? <==> exists j :: 0 <= j < |Params(query)| && SetsExtension(Params(query)[j], lookup)
  {
    QueryInfo(TitleOf(Params(query)), ExtensionOf(Params(query), lookup))
  }

  /**
   * `fileName(forQuery:)`: scans the `&`-separated parameters left to right; a
   * `title`/`name` parameter replaces the title, a `mime` parameter replaces the
   * extension when its MIME type maps to one.
   */
  method FileNameForQuery(query: string, lookup: MimeLookup) returns (title: Option<string>, ext: Option<string>)
    ensures QueryInfo(title, ext) == QueryFileName(query, lookup)
  {
    var params := Split(query, '&');
    title, ext := None, None;
    for i := 0 to |params|
      invariant title == TitleOf(params[..i])
      invariant ext == ExtensionOf(params[..i], lookup)
    {
      var param := params[i];
      assert params[..i + 1][..i] == params[..i];
      if IsTitleParam(param) {
        title := Some(TitleValue(param));
      } else if IsMimeParam(param) {
        var e := MimeExtension(param, lookup);
        if e.Some? {
          ext := e;
        }
      }
    }
    assert params[..|params|] == params;
  }

  /** The parameters of the response URL's query, none when it has no URL or no query. */
  function QueryParams(response: Response): seq<string>
  {
    if response.url.Some? && response.url.value.query.Some? then Split(response.url.value.query.value, '&')
    else []
  }

  /** `title + "." + ext` when there is an extension, `title` otherwise. */
  function WithExtension(title: string, ext: Option<string>): string
  {
    match ext
    case Some(e) => title + "." + e
    case None => title
  }

  /**
   * `preferredFilename(for:)`: the title is the query's title, else the
   * server's suggested name, else the response URL's last path component, else
   * "file"; the query's extension, if any, is appended after a dot.
   */
  function PreferredFilename(response: Response, lookup: MimeLookup): string
  {
    var queryInfo :=
      if response.url.Some? && response.url.value.query.Some?
      then Some(QueryFileName(response.url.value.query.value, lookup))
      else None;
    var title :=
      if queryInfo.Some? && queryInfo.value.title.Some? then queryInfo.value.title.value
      else if response.suggestedFilename.Some? then response.suggestedFilename.value
      else if response.url.Some? then response.url.value.lastPathComponent
      else "file";
    if queryInfo.Some? && queryInfo.value.ext.Some? then title + "." + queryInfo.value.ext.value
    else title
  }

  /**
   * The preferred name is the last title parameter's value, else the suggested
   * name, else the last path component, else "file", with the extension of the
   * last extension-setting parameter, if any, after a dot.
   */
  lemma PreferredFilenameChoice(response: Response, lookup: MimeLookup)
    ensures var name := PreferredFilename(response, lookup);
      var params := QueryParams(response);
      var ext := ExtensionOf(params, lookup);
      && (LastTitleParam(params).Some? ==>
            name == WithExtension(TitleValue(params[LastTitleParam(params).value]), ext))
      && (LastTitleParam(params).None? && response.suggestedFilename.Some? ==>
            name == WithExtension(response.suggestedFilename.value, ext))
      && (LastTitleParam(params).None? && response.suggestedFilename.None? && response.url.Some? ==>
            name == WithExtension(response.url.value.lastPathComponent, ext))
      && (LastTitleParam(params).None? && response.suggestedFilename.None? && response.url.None? ==>
            name == WithExtension("file", ext))
  {
    var params := QueryParams(response);
    if response.url.Some? && response.url.value.query.Some? {
      var info := QueryFileName(response.url.value.query.value, lookup);
      assert info.title == TitleOf(params) && info.ext == ExtensionOf(params, lookup);
    } else {
      assert LastTitleParam(params).None? && ExtensionOf(params, lookup).None?;
    }
  }

  /** A query made of two parameters splits into exactly those two. */
  lemma TwoParams(query: string, first: string, second: string)
    requires '&' !in first && '&' !in second && query == first + ['&'] + second
    ensures Split(query, '&') == [first, second]
  {
    SplitAfterPart(first, '&', second);
    SplitWithoutSeparator(second, '&');
  }

  /** The value of a `key=value` parameter is the text after the `=`. */
  lemma ParamValue(param: string, key: string, value: string)
    requires '=' !in key && '=' !in value && param == key + ['='] + value
    ensures LastComponent(param, '=') == value
  {
    SplitAfterPart(key, '=', value);
    SplitWithoutSeparator(value, '=');
  }

  /**
   * The query `title=My+Video&mime=video%2Fmp4`, with a platform that decodes
   * the MIME type to `video/mp4` and maps that to `mp4`, names the file
   * `My Video.mp4`.
   */
  lemma PreferredFilenameExample(response: Response, lookup: MimeLookup)
    requires response.url.Some? && response.url.value.query == Some("title=My+Video&mime=video%2Fmp4")
    requires lookup.percentDecode("video%2Fmp4") == Some("video/mp4")
    requires lookup.preferredExtension("video/mp4") == Some("mp4")
    ensures PreferredFilename(response, lookup) == "My Video.mp4"
  {
    ExampleParams(response.url.value.query.value);
    var params := QueryParams(response);
    ExampleTitle(params[0]);
    ExampleMime(params[1], lookup);
    TitleThenMime(response, lookup, params[0], params[1]);
    ExampleName();
  }

  /** A query of a title parameter followed by an extension-setting one names the file after both. */
  lemma TitleThenMime(response: Response, lookup: MimeLookup, title: string, mime: string)
    requires QueryParams(response) == [title, mime]
    requires IsTitleParam(title) && SetsExtension(mime, lookup)
    ensures PreferredFilename(response, lookup) == TitleValue(title) + "." + MimeExtension(mime, lookup).value
  {
    var params := QueryParams(response);
    assert params[0] == title && params[1] == mime && !IsTitleParam(mime);
    assert LastTitleParam(params) == Some(0);
    assert LastExtensionParam(params, lookup) == Some(1);
  }

  lemma ExampleName()
    ensures WithExtension("My Video", Some("mp4")) == "My Video.mp4"
  {
  }

  lemma ExampleParams(query: string)
    requires query == "title=My+Video&mime=video%2Fmp4"
    ensures Split(query, '&') == ["title=My+Video", "mime=video%2Fmp4"]
  {
    var title, mime := "title=My+Video", "mime=video%2Fmp4";
    assert forall i :: 0 <= i < |title| ==> title[i] != '&';
    assert forall i :: 0 <= i < |mime| ==> mime[i] != '&';
    assert query == title + ['&'] + mime;
    TwoParams(query, title, mime);
  }

  lemma ExampleTitle(param: string)
    requires param == "title=My+Video"
    ensures IsTitleParam(param) && TitleValue(param) == "My Video"
  {
    assert param[..5] == "title";
    ParamValue(param, "title", "My+Video");
    ExamplePlus("My+Video");
  }

  lemma ExamplePlus(value: string)
    requires value == "My+Video"
    ensures ReplacePlus(value) == "My Video"
  {
    var r, expected := ReplacePlus(value), "My Video";
    forall i | 0 <= i < |value|
      ensures r[i] == expected[i]
    {
      assert value[i] == '+' <==> i == 2;
    }
  }

  lemma ExampleMime(param: string, lookup: MimeLookup)
    requires param == "mime=video%2Fmp4"
    requires lookup.percentDecode("video%2Fmp4") == Some("video/mp4")
    requires lookup.preferredExtension("video/mp4") == Some("mp4")
    ensures !IsTitleParam(param) && SetsExtension(param, lookup) && MimeExtension(param, lookup) == Some("mp4")
  {
    assert param[0] == 'm';
    assert param[..4] == "mime";
    ParamValue(param, "mime", "video%2Fmp4");
  }
}
