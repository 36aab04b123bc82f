/** The tracking-issue progress display of the goals book: an element id of
    the form `milestone:org:repo:issue` is resolved against the issue data
    published per milestone (`/api/<milestone>.json`), and the issue found is
    shown as a progress bar, a Completed or Incomplete badge, or a warning. */
module ProgressBars {
  import opened Wrappers
  import opened JsText

  // ---------------------------------------------------------------------
  // The JSON published for one milestone

  datatype TrackedProgress = TrackedProgress(completed: int, total: int)

  /** The `Error` entry of `progress`; its `message` may be missing. */
  datatype ErrorProgress = ErrorProgress(message: Option<string>)

  /** The `progress` object of an issue. Each of its three keys may be
      present: `tracked` and `error` are present objects (always truthy),
      `binary` says that the `Binary` key holds a truthy value. */
  datatype Progress = Progress(tracked: Option<TrackedProgress>, binary: bool, error: Option<ErrorProgress>)

  datatype IssueJson = IssueJson(number: int, state: string, progress: Progress)

  datatype MilestoneJson = MilestoneJson(repository: string, issues: seq<IssueJson>)

  /** What `fetch` gives back: a response with an HTTP status and a body
      that does or does not decode as JSON, or a rejected request. */
  datatype FetchOutcome =
    | Response(status: int, body: Result<MilestoneJson, string>)
    | NetworkError(message: string)

  /** The errors `loadData` throws. */
  datatype LoadError =
    | BadFormat(id: string)
    | HttpError(status: int)
    | FetchFailed(message: string)
    | WrongRepository(expected: string, found: string)

  // ---------------------------------------------------------------------
  // Element ids

  datatype IssueId = IssueId(milestone: string, org: string, repo: string, issue: string)

  /** The four fields are non-empty and none holds the separator `:`. */
  predicate WellFormed(x: IssueId)
  {
    && x.milestone != "" && x.org != "" && x.repo != "" && x.issue != ""
    && ':' !in x.milestone && ':' !in x.org && ':' !in x.repo && ':' !in x.issue
  }

  function FormatId(x: IssueId): string
  {
    x.milestone + ":" + x.org + ":" + x.repo + ":" + x.issue
  }

  /** `loadData`'s destructuring of `id.split(':')`: the first four pieces
      must exist and be non-empty; pieces after the fourth are dropped. */
  function ParseId(id: string): (r: Result<IssueId, LoadError>)
    ensures r.Failure? ==> r.error == BadFormat(id)
    ensures r.Success? ==> WellFormed(r.value)
  {
    var parts := Split(id, ':');
    SplitPiecesHaveNoSeparator(id, ':');
    if |parts| < 4 || parts[0] == "" || parts[1] == "" || parts[2] == "" || parts[3] == "" then
      Failure(BadFormat(id))
    else
      Success(IssueId(parts[0], parts[1], parts[2], parts[3]))
  }

  lemma FormatIdIsJoin(x: IssueId)
    ensures FormatId(x) == Join([x.milestone, x.org, x.repo, x.issue], ':')
  {
    var p := [x.milestone, x.org, x.repo, x.issue];
    assert p[1..][1..][1..] == [x.issue];
    assert Join(p[1..][1..], ':') == x.repo + [':'] + x.issue;
    assert Join(p[1..], ':') == x.org + [':'] + (x.repo + [':'] + x.issue);
    assert Join(p, ':') == x.milestone + [':'] + (x.org + [':'] + (x.repo + [':'] + x.issue));
  }

  /** A formatted id parses back to its fields, whatever `:`-separated text follows it. */
  lemma ParseFormatId(x: IssueId, tail: string)
    requires WellFormed(x)
    requires tail == "" || tail[0] == ':'
    ensures ParseId(FormatId(x) + tail) == Success(x)
  {
    var p := [x.milestone, x.org, x.repo, x.issue];
    FormatIdIsJoin(x);
    SplitJoin(p, ':');
    if tail == "" {
      assert FormatId(x) + tail == FormatId(x);
    } else {
      SplitAround(FormatId(x), tail[1..], ':');
      assert FormatId(x) + [':'] + tail[1..] == FormatId(x) + tail;
    }
  }

  lemma {:induction false} JoinAppend(p: seq<string>, q: seq<string>, sep: char)
    requires |p| >= 1 && |q| >= 1
    ensures Join(p + q, sep) == Join(p, sep) + [sep] + Join(q, sep)
    decreases |p|
  {
    if |p| == 1 {
      assert (p + q)[1..] == q;
    } else {
      assert (p + q)[1..] == p[1..] + q;
      JoinAppend(p[1..], q, sep);
    }
  }

  /** Every id that parses is a formatted id followed by nothing or by `:` and more text. */
  lemma ParsedIdIsFormatted(id: string)
    requires ParseId(id).Success?
    ensures var f := FormatId(ParseId(id).value);
      |f| <= |id| && id[..|f|] == f && (|f| == |id| || id[|f|] == ':')
  {
    var parts := Split(id, ':');
    var x := ParseId(id).value;
    var f := FormatId(x);
    JoinSplit(id, ':');
    FormatIdIsJoin(x);
    assert parts[..4] == [x.milestone, x.org, x.repo, x.issue];
    if |parts| == 4 {
      assert parts == parts[..4];
    } else {
      JoinAppend(parts[..4], parts[4..], ':');
      assert parts[..4] + parts[4..] == parts;
      assert id == f + [':'] + Join(parts[4..], ':');
      assert id[..|f|] == f;
    }
  }

  /** Pieces after the fourth are ignored: appending more text after a `:` changes nothing. */
  lemma ParseIdIgnoresExtraPieces(id: string, extra: string)
    requires |Split(id, ':')| >= 4
    ensures ParseId(id + ":" + extra).Success? <==> ParseId(id).Success?
    ensures ParseId(id).Success? ==> ParseId(id + ":" + extra) == ParseId(id)
  {
    SplitAround(id, extra, ':');
    var parts := Split(id + ":" + extra, ':');
    var own := Split(id, ':');
    assert id + ":" + extra == id + [':'] + extra;
    assert parts == own + Split(extra, ':');
    assert parts[0] == own[0] && parts[1] == own[1] && parts[2] == own[2] && parts[3] == own[3];
  }

  // ---------------------------------------------------------------------
  // Looking an issue up in a milestone's data

  /** The URL of a milestone's data; the milestone can be read back from it. */
  function ApiUrl(milestone: string): (url: string)
    ensures |url| == |milestone| + 10
    ensures url[..5] == "/api/" && url[|url| - 5..] == ".json"
    ensures url[5..|url| - 5] == milestone
  {
    "/api/" + milestone + ".json"
  }

  /** JavaScript `issueJson.number === issueNumber`, where `None` is `NaN`. */
  predicate HasNumber(issue: IssueJson, n: Option<int>)
  {
    n == Some(issue.number)
  }

  /** The position of the first issue with number `n`; `|issues|` when there is none. */
  function FirstMatch(issues: seq<IssueJson>, n: Option<int>): (k: nat)
    ensures k <= |issues|
    ensures forall j :: 0 <= j < k ==> !HasNumber(issues[j], n)
    ensures k < |issues| ==> HasNumber(issues[k], n)
    decreases |issues|
  {
    if |issues| == 0 then 0
    else if HasNumber(issues[0], n) then 0
    else 1 + FirstMatch(issues[1..], n)
  }

  /** What `#findData` gives for the milestone data `json`. */
  function Lookup(json: MilestoneJson, org: string, repo: string, issueString: string): Result<Option<IssueJson>, LoadError>
  {
    var repository := org + "/" + repo;
    if json.repository != repository then
      Failure(WrongRepository(repository, json.repository))
    else
      var k := FirstMatch(json.issues, ParseInt(issueString));
      Success(if k < |json.issues| then Some(json.issues[k]) else None)
  }

  /** The repository check comes first: a mismatch is an error and no issue is returned. */
  lemma LookupChecksRepository(json: MilestoneJson, org: string, repo: string, issueString: string)
    ensures Lookup(json, org, repo, issueString).Failure?
        <==> json.repository != org + "/" + repo
    ensures Lookup(json, org, repo, issueString).Failure? ==>
        Lookup(json, org, repo, issueString).error == WrongRepository(org + "/" + repo, json.repository)
  {
  }

  /** With the right repository, the issue found is the first one with the
      parsed number; none is found exactly when no issue has that number,
      and an issue string that is not a number finds nothing. */
  lemma LookupFindsFirst(json: MilestoneJson, org: string, repo: string, issueString: string)
    requires json.repository == org + "/" + repo
    ensures var r := Lookup(json, org, repo, issueString);
      && r.Success?
      && (r.value.None? <==> forall k :: 0 <= k < |json.issues| ==> !HasNumber(json.issues[k], ParseInt(issueString)))
      && (r.value.Some? ==>
            exists k :: 0 <= k < |json.issues| && json.issues[k] == r.value.value
              && HasNumber(json.issues[k], ParseInt(issueString))
              && forall j :: 0 <= j < k ==> !HasNumber(json.issues[j], ParseInt(issueString)))
      && (ParseInt(issueString).None? ==> r.value.None?)
  {
    var n := ParseInt(issueString);
    var k := FirstMatch(json.issues, n);
    if k < |json.issues| {
      assert json.issues[k] == Lookup(json, org, repo, issueString).value.value;
    }
  }

  /** The decimal text of an issue's number finds the first issue with that number. */
  lemma LookupByNumber(json: MilestoneJson, org: string, repo: string, k: nat)
    requires json.repository == org + "/" + repo
    requires k < |json.issues|
    requires forall j :: 0 <= j < k ==> json.issues[j].number != json.issues[k].number
    ensures Lookup(json, org, repo, IntToString(json.issues[k].number)) == Success(Some(json.issues[k]))
  {
    ParseIntToString(json.issues[k].number);
    var m := FirstMatch(json.issues, Some(json.issues[k].number));
    assert m == k;
  }

  /** The outcome of fetching a milestone's data: the decoded JSON, or the error to re-throw. */
  function Received(outcome: FetchOutcome): (r: Result<MilestoneJson, LoadError>)
    ensures r.Success? <==> outcome.Response? && 200 <= outcome.status <= 299 && outcome.body.Success?
    ensures r.Success? ==> r.value == outcome.body.value
    ensures outcome.NetworkError? ==> r == Failure(FetchFailed(outcome.message))
    ensures outcome.Response? && !(200 <= outcome.status <= 299) ==> r == Failure(HttpError(outcome.status))
  {
    match outcome
    case NetworkError(message) => Failure(FetchFailed(message))
    case Response(status, body) =>
      if !(200 <= status <= 299) then Failure(HttpError(status))
      else match body
        case Success(json) => Success(json)
        case Failure(message) => Failure(FetchFailed(message))
  }

  /** The per-page cache of milestone data, filled by `LoadData`. */
  class IssueData {
    /** Milestone name to its decoded JSON. */
    var dataMap: map<string, MilestoneJson>
    /** The URLs fetched so far, in order. */
    ghost var requests: seq<string>

    constructor ()
      ensures dataMap == map[] && requests == []
    {
      dataMap := map[];
      requests := [];
    }

    /** Resolves `id`. A malformed id throws before anything is fetched; a
        milestone already in the cache is not fetched again; otherwise its
        data is fetched once, stored only on success, and a failure is
        re-thrown with the cache left as it was. */
    method LoadData(id: string, fetch: string -> FetchOutcome) returns (r: Result<Option<IssueJson>, LoadError>)
      modifies this
      ensures ParseId(id).Failure? ==>
        r == Failure(BadFormat(id)) && dataMap == old(dataMap) && requests == old(requests)
      ensures ParseId(id).Success? && ParseId(id).value.milestone in old(dataMap) ==>
        var x := ParseId(id).value;
        && dataMap == old(dataMap) && requests == old(requests)
        && r == Lookup(dataMap[x.milestone], x.org, x.repo, x.issue)
      ensures ParseId(id).Success? && ParseId(id).value.milestone !in old(dataMap) ==>
        var x := ParseId(id).value;
        var received := Received(fetch(ApiUrl(x.milestone)));
        && requests == old(requests) + [ApiUrl(x.milestone)]
        && (received.Success? ==>
              dataMap == old(dataMap)[x.milestone := received.value]
              && r == Lookup(received.value, x.org, x.repo, x.issue))
        && (received.Failure? ==> dataMap == old(dataMap) && r == Failure(received.error))
    {
      var parsed := ParseId(id);
      if parsed.Failure? {
        return Failure(parsed.error);
      }
      var x := parsed.value;
      if x.milestone !in dataMap {
        var url := ApiUrl(x.milestone);
        requests := requests + [url];
        var received := Received(fetch(url));
        if received.Failure? {
          return Failure(received.error);
        }
        dataMap := dataMap[x.milestone := received.value];
      }
      r := FindData(x.milestone, x.org, x.repo, x.issue);
    }

    /** `loadData` exactly as written: the cache test is `CachedAsWritten`,
        so a milestone named after an inherited property counts as cached, is
        not fetched, and goes on to `FindDataAsWritten`. */
    method LoadDataAsWritten(id: string, fetch: string -> FetchOutcome) returns (r: Result<Option<IssueJson>, LoadError>)
      modifies this
      ensures ParseId(id).Failure? ==>
        r == Failure(BadFormat(id)) && dataMap == old(dataMap) && requests == old(requests)
      ensures ParseId(id).Success? && CachedAsWritten(old(dataMap), ParseId(id).value.milestone) ==>
        var x := ParseId(id).value;
        && dataMap == old(dataMap) && requests == old(requests)
        && r == FindDataAsWritten(dataMap, x.milestone, x.org, x.repo, x.issue)
      ensures ParseId(id).Success? && !CachedAsWritten(old(dataMap), ParseId(id).value.milestone) ==>
        var x := ParseId(id).value;
        var received := Received(fetch(ApiUrl(x.milestone)));
        && requests == old(requests) + [ApiUrl(x.milestone)]
        && (received.Success? ==>
              dataMap == old(dataMap)[x.milestone := received.value]
              && r == Lookup(received.value, x.org, x.repo, x.issue))
        && (received.Failure? ==> dataMap == old(dataMap) && r == Failure(received.error))
    {
      var parsed := ParseId(id);
      if parsed.Failure? {
        return Failure(parsed.error);
      }
      var x := parsed.value;
      if !CachedAsWritten(dataMap, x.milestone) {
        var url := ApiUrl(x.milestone);
        requests := requests + [url];
        var received := Received(fetch(url));
        if received.Failure? {
          return Failure(received.error);
        }
        dataMap := dataMap[x.milestone := received.value];
      }
      r := FindDataAsWritten(dataMap, x.milestone, x.org, x.repo, x.issue);
    }

    /** The repository check, then a linear search for the issue number. */
    method FindData(milestone: string, org: string, repo: string, issueString: string)
      returns (r: Result<Option<IssueJson>, LoadError>)
      requires milestone in dataMap
      ensures r == Lookup(dataMap[milestone], org, repo, issueString)
    {
      var milestoneJson := dataMap[milestone];
      var repository := org + "/" + repo;
      var issueNumber := ParseInt(issueString);
      if milestoneJson.repository != repository {
        return Failure(WrongRepository(repository, milestoneJson.repository));
      }
      var issues := milestoneJson.issues;
      for i := 0 to |issues|
        invariant FirstMatch(issues, issueNumber) >= i
      {
        if HasNumber(issues[i], issueNumber) {
          return Success(Some(issues[i]));
        }
      }
      return Success(None);
    }
  }

  // ---------------------------------------------------------------------
  // The cache test as written

  /** The names every object literal inherits from `Object.prototype`. */
  const ObjectPrototypeKeys: set<string> := {
    "constructor", "hasOwnProperty", "isPrototypeOf", "propertyIsEnumerable",
    "toLocaleString", "toString", "valueOf", "__proto__",
    "__defineGetter__", "__defineSetter__", "__lookupGetter__", "__lookupSetter__"
  }

  /** `milestone in this.#dataMap` as written: the `in` operator also finds
      the names that the `{}` literal inherits. */
  predicate CachedAsWritten(dataMap: map<string, MilestoneJson>, milestone: string)
  {
    milestone in dataMap || milestone in ObjectPrototypeKeys
  }

  /** `#findData` as written, reached after `CachedAsWritten`: an inherited
      value has no `repository` property, so the check reports `undefined`. */
  function FindDataAsWritten(dataMap: map<string, MilestoneJson>, milestone: string, org: string, repo: string, issueString: string)
    : (r: Result<Option<IssueJson>, LoadError>)
    requires CachedAsWritten(dataMap, milestone)
  {
    if milestone in dataMap then Lookup(dataMap[milestone], org, repo, issueString)
    else Failure(WrongRepository(org + "/" + repo, "undefined"))
  }

  /** `toString:rust-lang:rust-project-goals:1` is such an id. */
  lemma ToStringIsInherited()
    ensures var x := IssueId("toString", "rust-lang", "rust-project-goals", "1");
      WellFormed(x) && x.milestone in ObjectPrototypeKeys
  {
  }

  /** As written, on a fresh cache, an id whose milestone is an inherited
      property name, such as `toString:rust-lang:rust-project-goals:1`,
      fails the repository check with `undefined` whatever `fetch` would
      answer, and nothing is fetched. */
  method PrototypeMilestoneIsNeverFetched(x: IssueId, fetch: string -> FetchOutcome)
    returns (r: Result<Option<IssueJson>, LoadError>, ghost requests: seq<string>)
    requires WellFormed(x) && x.milestone in ObjectPrototypeKeys
    ensures r == Failure(WrongRepository(x.org + "/" + x.repo, "undefined"))
    ensures requests == []
  {
    ParseFormatId(x, "");
    assert FormatId(x) + "" == FormatId(x);
    var data := new IssueData();
    r := data.LoadDataAsWritten(FormatId(x), fetch);
    requests := data.requests;
  }

  // ---------------------------------------------------------------------
  // Rendering an issue's progress

  const CompletedBadgeHtml: string :=
    "<center>" + "<img src=\"https://img.shields.io/badge/Completed!%20%3A%29-green\" alt=\"Completed\"/>" + "</center>"
  const IncompleteBadgeHtml: string :=
    "<center>" + "<img src=\"https://img.shields.io/badge/Incomplete%20%3A%28-yellow\" alt=\"Incomplete\"/>" + "</center>"
  const DefaultErrorMessage: string := "Error loading status"

  /** The four things `progressHtml` can show; a warning carries its
      message before escaping. */
  datatype Display =
    | Bar(value: int, max: int)
    | CompletedBadge
    | IncompleteBadge
    | Warning(message: string)

  /** `progressElement(completed, total)` for the issue state `state`. */
  function ProgressElement(state: string, completed: int, total: int): (d: Display)
    ensures !d.Warning?
    ensures d.Bar? <==> state != "CLOSED"
    ensures d.Bar? ==> d == Bar(completed, total)
    ensures d == CompletedBadge <==> state == "CLOSED" && completed == total
  {
    if state == "CLOSED" then
      if completed == total then CompletedBadge else IncompleteBadge
    else Bar(completed, total)
  }

  /** `o?.message || "Error loading status"`: a missing or empty message is replaced. */
  function ErrorMessage(error: Option<ErrorProgress>): (m: string)
    ensures m != ""
    ensures error.Some? && error.value.message.Some? && error.value.message.value != "" ==>
      m == error.value.message.value
    ensures error.None? || error.value.message.None? || error.value.message.value == "" ==>
      m == DefaultErrorMessage
  {
    if error.Some? && error.value.message.Some? && error.value.message.value != "" then
      error.value.message.value
    else DefaultErrorMessage
  }

  /** The case split of `progressHtml`: `Tracked`, then `Binary`, then the warning. */
  function Decide(issue: IssueJson): (d: Display)
    ensures d.Warning? <==> issue.progress.tracked.None? && !issue.progress.binary
    ensures d.Warning? ==> d.message == ErrorMessage(issue.progress.error)
  {
    var p := issue.progress;
    if p.tracked.Some? then
      ProgressElement(issue.state, p.tracked.value.completed, p.tracked.value.total)
    else if p.binary then
      if issue.state == "OPEN" then ProgressElement(issue.state, 0, 1)
      else ProgressElement(issue.state, 1, 1)
    else Warning(ErrorMessage(p.error))
  }

  /** `escapeHtml`: five global replacements, `&` first. */
  function EscapeHtml(unsafe: string): string
  {
    ReplaceAll(ReplaceAll(ReplaceAll(ReplaceAll(ReplaceAll(
      unsafe, '&', "&amp;"), '<', "&lt;"), '>', "&gt;"), '"', "&quot;"), '\'', "&#039;")
  }

  const WarningPrefix: string := "<span title=\""
  const WarningSuffix: string := "\" >\U{26A0}\U{FE0F}</span>"

  const BarOpen: string := "<progress value=\""
  const BarMiddle: string := "\" max=\""
  const BarClose: string := "\" ></progress>"

  /** The `<progress>` element with the two attribute texts `value` and `max`. */
  function BarText(value: string, max: string): string
  {
    BarOpen + value + BarMiddle + max + BarClose
  }

  function BarHtml(value: int, max: int): string
  {
    BarText(IntToString(value), IntToString(max))
  }

  /** The markup for each kind of display. */
  function Render(d: Display): string
  {
    match d
    case Bar(value, max) => BarHtml(value, max)
    case CompletedBadge => CompletedBadgeHtml
    case IncompleteBadge => IncompleteBadgeHtml
    case Warning(message) => WarningPrefix + EscapeHtml(message) + WarningSuffix
  }

  /** `Issue.progressHtml`. */
  function ProgressHtml(issue: IssueJson): string
  {
    Render(Decide(issue))
  }

  // ---------------------------------------------------------------------
  // Properties of the rendering

  /** A `Tracked` entry decides the display; `Binary` and `Error` are not consulted. */
  lemma TrackedTakesPriority(issue: IssueJson, binary: bool, error: Option<ErrorProgress>)
    requires issue.progress.tracked.Some?
    ensures var t := issue.progress.tracked.value;
      && ProgressHtml(issue) == ProgressHtml(issue.(progress := issue.progress.(binary := binary, error := error)))
      && ProgressHtml(issue) == Render(ProgressElement(issue.state, t.completed, t.total))
  {
  }

  /** Without `Tracked`, a `Binary` entry decides the display and `Error` is not consulted. */
  lemma BinaryBeforeError(issue: IssueJson, error: Option<ErrorProgress>)
    requires issue.progress.tracked.None? && issue.progress.binary
    ensures ProgressHtml(issue) == ProgressHtml(issue.(progress := issue.progress.(error := error)))
    ensures ProgressHtml(issue) == Render(if issue.state == "OPEN" then Bar(0, 1) else ProgressElement(issue.state, 1, 1))
  {
  }

  /** A closed issue shows a badge, Completed exactly when the work is done:
      a tracked count that is full, or any binary entry. */
  lemma ClosedIssueShowsBadge(issue: IssueJson)
    requires issue.state == "CLOSED"
    requires issue.progress.tracked.Some? || issue.progress.binary
    ensures ProgressHtml(issue) == CompletedBadgeHtml || ProgressHtml(issue) == IncompleteBadgeHtml
    ensures ProgressHtml(issue) == CompletedBadgeHtml <==>
      (issue.progress.tracked.Some? ==> issue.progress.tracked.value.completed == issue.progress.tracked.value.total)
  {
    assert CompletedBadgeHtml != IncompleteBadgeHtml by {
      assert |CompletedBadgeHtml| != |IncompleteBadgeHtml|;
    }
  }

  /** An issue in any other state shows a progress bar: the tracked counts,
      or 0 of 1 for an open binary issue and 1 of 1 otherwise. */
  lemma OtherStateShowsBar(issue: IssueJson)
    requires issue.state != "CLOSED"
    requires issue.progress.tracked.Some? || issue.progress.binary
    ensures issue.progress.tracked.Some? ==>
      ProgressHtml(issue) == BarHtml(issue.progress.tracked.value.completed, issue.progress.tracked.value.total)
    ensures issue.progress.tracked.None? && issue.state == "OPEN" ==>
      ProgressHtml(issue) == BarText("0", "1")
    ensures issue.progress.tracked.None? && issue.state != "OPEN" ==>
      ProgressHtml(issue) == BarText("1", "1")
  {
    SmallBars();
    if issue.progress.tracked.None? {
      assert Decide(issue) == if issue.state == "OPEN" then Bar(0, 1) else Bar(1, 1);
    }
  }

  lemma SmallBars()
    ensures BarHtml(0, 1) == BarText("0", "1")
    ensures BarHtml(1, 1) == BarText("1", "1")
  {
    assert IntToString(0) == "0" && IntToString(1) == "1";
  }

  /** The two attributes of a bar parse back to the numbers it shows. */
  lemma BarShowsItsNumbers(value: int, max: int)
    ensures var v := IntToString(value); var m := IntToString(max);
      && BarHtml(value, max) == BarText(v, m)
      && ParseInt(v) == Some(value) && ParseInt(m) == Some(max)
      && '"' !in v && '"' !in m
  {
    ParseIntToString(value);
    ParseIntToString(max);
    NoQuoteInNumber(value);
    NoQuoteInNumber(max);
  }

  lemma NoQuoteInNumber(i: int)
    ensures '"' !in IntToString(i)
  {
    var d := NatToDecimal(if i < 0 then -i else i);
    assert forall k :: 0 <= k < |d| ==> d[k] != '"';
    if i < 0 {
      assert forall k :: 0 <= k < |IntToString(i)| ==> IntToString(i)[k] != '"' by {
        assert forall k :: 1 <= k < |IntToString(i)| ==> IntToString(i)[k] == d[k - 1];
      }
    }
  }

  /** Without `Tracked` or `Binary`, the warning's title is the escaped
      error message, or `Error loading status` when there is none. */
  lemma ErrorFallbackShowsWarning(issue: IssueJson)
    requires issue.progress.tracked.None? && !issue.progress.binary
    ensures var e := issue.progress.error;
      var message := if e.Some? && e.value.message.Some? && e.value.message.value != ""
                     then e.value.message.value else "Error loading status";
      ProgressHtml(issue) == WarningPrefix + EscapeHtml(message) + WarningSuffix
  {
  }

  // ---------------------------------------------------------------------
  // Properties of escapeHtml

  /** The entity each special character becomes. */
  function EscapeChar(c: char): string
  {
    if c == '&' then "&amp;"
    else if c == '<' then "&lt;"
    else if c == '>' then "&gt;"
    else if c == '"' then "&quot;"
    else if c == '\'' then "&#039;"
    else [c]
  }

  /** Escaping one character at a time. */
  function EscapeEach(s: string): string
    decreases |s|
  {
    if |s| == 0 then "" else EscapeChar(s[0]) + EscapeEach(s[1..])
  }

  lemma EscapeHtmlAppend(a: string, b: string)
    ensures EscapeHtml(a + b) == EscapeHtml(a) + EscapeHtml(b)
  {
    var a1, b1 := ReplaceAll(a, '&', "&amp;"), ReplaceAll(b, '&', "&amp;");
    ReplaceAllAppend(a, b, '&', "&amp;");
    var a2, b2 := ReplaceAll(a1, '<', "&lt;"), ReplaceAll(b1, '<', "&lt;");
    ReplaceAllAppend(a1, b1, '<', "&lt;");
    var a3, b3 := ReplaceAll(a2, '>', "&gt;"), ReplaceAll(b2, '>', "&gt;");
    ReplaceAllAppend(a2, b2, '>', "&gt;");
    var a4, b4 := ReplaceAll(a3, '"', "&quot;"), ReplaceAll(b3, '"', "&quot;");
    ReplaceAllAppend(a3, b3, '"', "&quot;");
    ReplaceAllAppend(a4, b4, '\'', "&#039;");
  }

  /** No entity holds `<`, `>`, `"` or `'`: each stage of the chain leaves
      the entities of the earlier stages alone, and none of them brings
      markup back. */
  lemma EntitiesHaveNoMarkup()
    ensures '<' !in "&amp;" && '>' !in "&amp;" && '"' !in "&amp;" && '\'' !in "&amp;"
    ensures '<' !in "&lt;" && '>' !in "&lt;" && '"' !in "&lt;" && '\'' !in "&lt;"
    ensures '<' !in "&gt;" && '>' !in "&gt;" && '"' !in "&gt;" && '\'' !in "&gt;"
    ensures '<' !in "&quot;" && '>' !in "&quot;" && '"' !in "&quot;" && '\'' !in "&quot;"
    ensures '<' !in "&#039;" && '>' !in "&#039;" && '"' !in "&#039;" && '\'' !in "&#039;"
  {
  }

  lemma EscapeAmpersand(c: char)
    requires c == '&'
    ensures EscapeHtml([c]) == "&amp;"
  {
    EntitiesHaveNoMarkup();
    ReplaceAllSingle(c, '&', "&amp;");
    ReplaceAllAbsent("&amp;", '<', "&lt;");
    ReplaceAllAbsent("&amp;", '>', "&gt;");
    ReplaceAllAbsent("&amp;", '"', "&quot;");
    ReplaceAllAbsent("&amp;", '\'', "&#039;");
  }

  lemma EscapeLessThan(c: char)
    requires c == '<'
    ensures EscapeHtml([c]) == "&lt;"
  {
    EntitiesHaveNoMarkup();
    ReplaceAllSingle(c, '&', "&amp;");
    ReplaceAllSingle(c, '<', "&lt;");
    ReplaceAllAbsent("&lt;", '>', "&gt;");
    ReplaceAllAbsent("&lt;", '"', "&quot;");
    ReplaceAllAbsent("&lt;", '\'', "&#039;");
  }

  lemma EscapeGreaterThan(c: char)
    requires c == '>'
    ensures EscapeHtml([c]) == "&gt;"
  {
    EntitiesHaveNoMarkup();
    ReplaceAllSingle(c, '&', "&amp;");
    ReplaceAllSingle(c, '<', "&lt;");
    ReplaceAllSingle(c, '>', "&gt;");
    ReplaceAllAbsent("&gt;", '"', "&quot;");
    ReplaceAllAbsent("&gt;", '\'', "&#039;");
  }

  lemma EscapeQuote(c: char)
    requires c == '"'
    ensures EscapeHtml([c]) == "&quot;"
  {
    EntitiesHaveNoMarkup();
    ReplaceAllSingle(c, '&', "&amp;");
    ReplaceAllSingle(c, '<', "&lt;");
    ReplaceAllSingle(c, '>', "&gt;");
    ReplaceAllSingle(c, '"', "&quot;");
    ReplaceAllAbsent("&quot;", '\'', "&#039;");
  }

  lemma EscapeApostrophe(c: char)
    requires c == '\''
    ensures EscapeHtml([c]) == "&#039;"
  {
    ReplaceAllSingle(c, '&', "&amp;");
    ReplaceAllSingle(c, '<', "&lt;");
    ReplaceAllSingle(c, '>', "&gt;");
    ReplaceAllSingle(c, '"', "&quot;");
    ReplaceAllSingle(c, '\'', "&#039;");
  }

  lemma EscapePlain(c: char)
    requires EscapeChar(c) == [c]
    ensures EscapeHtml([c]) == [c]
  {
    ReplaceAllSingle(c, '&', "&amp;");
    ReplaceAllSingle(c, '<', "&lt;");
    ReplaceAllSingle(c, '>', "&gt;");
    ReplaceAllSingle(c, '"', "&quot;");
    ReplaceAllSingle(c, '\'', "&#039;");
  }

  lemma EscapeHtmlChar(c: char)
    ensures EscapeHtml([c]) == EscapeChar(c)
  {
    if c == '&' { EscapeAmpersand(c); }
    else if c == '<' { EscapeLessThan(c); }
    else if c == '>' { EscapeGreaterThan(c); }
    else if c == '"' { EscapeQuote(c); }
    else if c == '\'' { EscapeApostrophe(c); }
    else { EscapePlain(c); }
  }

  /** Because `&` is replaced first, no entity is escaped twice: the chain of
      replacements equals escaping each character on its own. */
  lemma {:induction false} EscapeHtmlIsPerCharacter(s: string)
    ensures EscapeHtml(s) == EscapeEach(s)
    decreases |s|
  {
    if |s| > 0 {
      assert s == [s[0]] + s[1..];
      EscapeHtmlAppend([s[0]], s[1..]);
      EscapeHtmlChar(s[0]);
      EscapeHtmlIsPerCharacter(s[1..]);
    }
  }

  /** Characters other than the five specials are left alone, and an input
      without specials comes back unchanged. */
  lemma {:induction false} EscapeLeavesPlainText(s: string)
    requires forall k :: 0 <= k < |s| ==> EscapeChar(s[k]) == [s[k]]
    ensures EscapeEach(s) == s
    ensures EscapeHtml(s) == s
    decreases |s|
  {
    EscapeHtmlIsPerCharacter(s);
    if |s| > 0 {
      EscapeLeavesPlainText(s[1..]);
    }
  }

  /** The escaped text holds no raw `<`, `>`, `"` or `'`. */
  lemma EscapedHasNoMarkup(s: string)
    ensures '<' !in EscapeHtml(s) && '>' !in EscapeHtml(s)
    ensures '"' !in EscapeHtml(s) && '\'' !in EscapeHtml(s)
  {
    EntitiesHaveNoMarkup();
    var s1 := ReplaceAll(s, '&', "&amp;");
    var s2 := ReplaceAll(s1, '<', "&lt;");
    var s3 := ReplaceAll(s2, '>', "&gt;");
    var s4 := ReplaceAll(s3, '"', "&quot;");
    ReplaceAllKeepsAbsent(s2, '>', "&gt;", '<');
    ReplaceAllKeepsAbsent(s3, '"', "&quot;", '<');
    ReplaceAllKeepsAbsent(s4, '\'', "&#039;", '<');
    ReplaceAllKeepsAbsent(s3, '"', "&quot;", '>');
    ReplaceAllKeepsAbsent(s4, '\'', "&#039;", '>');
    ReplaceAllKeepsAbsent(s4, '\'', "&#039;", '"');
  }

  predicate StartsWith(s: string, prefix: string)
  {
    |prefix| <= |s| && s[..|prefix|] == prefix
  }

  /** The character at the front of `s` after decoding, and how many
      characters of `s` it takes: one of the five entities `escapeHtml`
      produces, or else the first character itself. */
  function UnescapeStep(s: string): (step: (char, nat))
    requires |s| > 0
    ensures 1 <= step.1 <= |s|
  {
    if StartsWith(s, "&amp;") then ('&', 5)
    else if StartsWith(s, "&lt;") then ('<', 4)
    else if StartsWith(s, "&gt;") then ('>', 4)
    else if StartsWith(s, "&quot;") then ('"', 6)
    else if StartsWith(s, "&#039;") then ('\'', 6)
    else (s[0], 1)
  }

  /** Decoding of the five entities; the reference against which escaping
      is checked to lose nothing. */
  function HtmlUnescape(s: string): string
    decreases |s|
  {
    if |s| == 0 then ""
    else
      var step := UnescapeStep(s);
      [step.0] + HtmlUnescape(s[step.1..])
  }

  /** Decoding proceeds past whatever the first step consumes. */
  lemma UnescapeFront(front: string, c: char, rest: string)
    requires |front| > 0 && UnescapeStep(front + rest) == (c, |front|)
    ensures HtmlUnescape(front + rest) == [c] + HtmlUnescape(rest)
  {
    assert (front + rest)[|front|..] == rest;
  }

  /** Decoding one entity at the front. The entity is what `EscapeChar`
      gives for one of the five specials; the five differ in their second
      character, which picks the branch of `UnescapeStep`. */
  lemma UnescapeEntity(c: char, rest: string)
    requires EscapeChar(c) != [c]
    ensures HtmlUnescape(EscapeChar(c) + rest) == [c] + HtmlUnescape(rest)
  {
    var e := EscapeChar(c);
    var s := e + rest;
    assert s[..|e|] == e;
    assert s[1] == e[1];
    assert UnescapeStep(s) == (c, |e|);
    UnescapeFront(e, c, rest);
  }

  lemma UnescapeChar(c: char, rest: string)
    ensures HtmlUnescape(EscapeChar(c) + rest) == [c] + HtmlUnescape(rest)
  {
    if EscapeChar(c) != [c] {
      UnescapeEntity(c, rest);
    } else {
      var s := [c] + rest;
      assert s[0] == c;
      assert !StartsWith(s, "&amp;") && !StartsWith(s, "&lt;") && !StartsWith(s, "&gt;");
      assert !StartsWith(s, "&quot;") && !StartsWith(s, "&#039;");
      UnescapeFront([c], c, rest);
    }
  }

  /** Escaping loses nothing: decoding the entities gives back the message. */
  lemma {:induction false} UnescapeEscapeEach(s: string)
    ensures HtmlUnescape(EscapeEach(s)) == s
    decreases |s|
  {
    if |s| > 0 {
      UnescapeChar(s[0], EscapeEach(s[1..]));
      UnescapeEscapeEach(s[1..]);
    }
  }

  lemma UnescapeEscape(s: string)
    ensures HtmlUnescape(EscapeHtml(s)) == s
  {
    EscapeHtmlIsPerCharacter(s);
    UnescapeEscapeEach(s);
  }

  /** The warning's `title` attribute cannot be closed early, and it decodes to the message. */
  lemma WarningTitleIsSafe(message: string)
    ensures var title := EscapeHtml(message);
      && Render(Warning(message)) == WarningPrefix + title + WarningSuffix
      && '"' !in title
      && HtmlUnescape(title) == message
  {
    EscapedHasNoMarkup(message);
    UnescapeEscape(message);
  }

  // ---------------------------------------------------------------------
  // The markup identifies the display

  /** The text before the first `"`. */
  function UpToQuote(s: string): string
    decreases |s|
  {
    if |s| == 0 || s[0] == '"' then "" else [s[0]] + UpToQuote(s[1..])
  }

  lemma {:induction false} UpToQuoteOf(a: string, b: string)
    requires '"' !in a
    requires |b| > 0 && b[0] == '"'
    ensures UpToQuote(a + b) == a
    decreases |a|
  {
    if |a| == 0 {
      assert a + b == b;
    } else {
      assert (a + b)[1..] == a[1..] + b;
      assert '"' !in a[1..] by { assert forall c :: c in a[1..] ==> c in a; }
      UpToQuoteOf(a[1..], b);
    }
  }

  lemma IntToStringInjective(i: int, j: int)
    requires IntToString(i) == IntToString(j)
    ensures i == j
  {
    ParseIntToString(i);
    ParseIntToString(j);
  }

  /** Two strings that agree on a prefix, then on a quote-free part ended by a
      quote, agree on that part and on what follows. */
  lemma SplitAtQuote(p: string, a1: string, r1: string, a2: string, r2: string)
    requires p + a1 + r1 == p + a2 + r2
    requires '"' !in a1 && '"' !in a2
    requires |r1| > 0 && r1[0] == '"' && |r2| > 0 && r2[0] == '"'
    ensures a1 == a2 && r1 == r2
  {
    var h := p + a1 + r1;
    assert h[|p|..] == a1 + r1;
    assert (p + a2 + r2)[|p|..] == a2 + r2;
    UpToQuoteOf(a1, r1);
    UpToQuoteOf(a2, r2);
    assert h[|p| + |a1|..] == r1;
    assert (p + a2 + r2)[|p| + |a2|..] == r2;
  }

  /** Quote-free attribute texts can be read back from the bar markup. */
  lemma BarTextIsInjective(a1: string, b1: string, a2: string, b2: string)
    requires BarText(a1, b1) == BarText(a2, b2)
    requires '"' !in a1 && '"' !in b1 && '"' !in a2 && '"' !in b2
    ensures a1 == a2 && b1 == b2
  {
    assert BarMiddle[0] == '"' && BarClose[0] == '"';
    assert BarText(a1, b1) == BarOpen + a1 + (BarMiddle + b1 + BarClose);
    assert BarText(a2, b2) == BarOpen + a2 + (BarMiddle + b2 + BarClose);
    SplitAtQuote(BarOpen, a1, BarMiddle + b1 + BarClose, a2, BarMiddle + b2 + BarClose);
    SplitAtQuote(BarMiddle, b1, BarClose, b2, BarClose);
  }

  lemma BarIsInjective(v1: int, m1: int, v2: int, m2: int)
    requires BarHtml(v1, m1) == BarHtml(v2, m2)
    ensures v1 == v2 && m1 == m2
  {
    NoQuoteInNumber(v1); NoQuoteInNumber(m1); NoQuoteInNumber(v2); NoQuoteInNumber(m2);
    BarTextIsInjective(IntToString(v1), IntToString(m1), IntToString(v2), IntToString(m2));
    IntToStringInjective(v1, v2);
    IntToStringInjective(m1, m2);
  }

  lemma WarningIsInjective(m1: string, m2: string)
    requires Render(Warning(m1)) == Render(Warning(m2))
    ensures m1 == m2
  {
    WarningTitleIsSafe(m1);
    WarningTitleIsSafe(m2);
    SplitAtQuote(WarningPrefix, EscapeHtml(m1), WarningSuffix, EscapeHtml(m2), WarningSuffix);
  }

  lemma SecondCharOf(prefix: string, rest: string)
    requires |prefix| >= 2
    ensures |prefix + rest| > 1 && (prefix + rest)[1] == prefix[1]
  {
  }

  /** The second character of the markup tells the kinds apart: `p` for a
      bar, `c` for a badge, `s` for a warning. */
  lemma BarTextKind(a: string, b: string)
    ensures |BarText(a, b)| > 1 && BarText(a, b)[1] == 'p'
  {
    SecondCharOf(BarOpen, a + BarMiddle + b + BarClose);
    assert BarText(a, b) == BarOpen + (a + BarMiddle + b + BarClose);
  }

  lemma BarKind(v: int, m: int)
    ensures |Render(Bar(v, m))| > 1 && Render(Bar(v, m))[1] == 'p'
  {
    BarTextKind(IntToString(v), IntToString(m));
  }

  lemma WarningKind(message: string)
    ensures |Render(Warning(message))| > 1 && Render(Warning(message))[1] == 's'
  {
    SecondCharOf(WarningPrefix, EscapeHtml(message) + WarningSuffix);
    assert Render(Warning(message)) == WarningPrefix + (EscapeHtml(message) + WarningSuffix);
  }

  lemma BadgeKind()
    ensures |CompletedBadgeHtml| > 1 && CompletedBadgeHtml[1] == 'c'
    ensures |IncompleteBadgeHtml| > 1 && IncompleteBadgeHtml[1] == 'c'
    ensures |CompletedBadgeHtml| != |IncompleteBadgeHtml|
  {
    SecondCharOf("<center>", CompletedBadgeHtml[8..]);
    assert CompletedBadgeHtml == "<center>" + CompletedBadgeHtml[8..];
    SecondCharOf("<center>", IncompleteBadgeHtml[8..]);
    assert IncompleteBadgeHtml == "<center>" + IncompleteBadgeHtml[8..];
  }

  /** Different displays never produce the same markup. */
  lemma RenderIsInjective(d1: Display, d2: Display)
    requires Render(d1) == Render(d2)
    ensures d1 == d2
  {
    BadgeKind();
    match d1
    case Bar(v1, m1) =>
      BarKind(v1, m1);
      if d2.Warning? { WarningKind(d2.message); }
      if d2.Bar? { BarIsInjective(v1, m1, d2.value, d2.max); }
    case Warning(m1) =>
      WarningKind(m1);
      if d2.Bar? { BarKind(d2.value, d2.max); }
      if d2.Warning? { WarningIsInjective(m1, d2.message); }
    case CompletedBadge =>
      if d2.Bar? { BarKind(d2.value, d2.max); }
      if d2.Warning? { WarningKind(d2.message); }
    case IncompleteBadge =>
      if d2.Bar? { BarKind(d2.value, d2.max); }
      if d2.Warning? { WarningKind(d2.message); }
  }
}
