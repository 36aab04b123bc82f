# Rust project goals: progress bars and the goal-directory check

This project models two small pieces of the Rust project-goals tooling in Dafny and proves properties about them.

- **The progress-bar script** (`src/update-progress-bars.js`) runs in the rendered goals book. Each tracking-issue element has an id of the form `milestone:org:repo:issue`, for example `2024h2:rust-lang:rust-project-goals:123`. The script splits that id and fetches `/api/<milestone>.json` when that milestone is not cached yet. Data from a successful load is cached per milestone; a failed load stores nothing, so a later id for the same milestone fetches again. The script then finds the issue and renders its progress in one of four ways: a `<progress>` bar, a "Completed" badge, an "Incomplete" badge, or a warning sign whose tooltip holds the HTML-escaped error message.
- **The `mdbook-goals` command** (`mdbook-goals/src/main.rs`). Three parts are modelled:
  - `check` walks `src`. It loads the goals of every directory whose UTF-8 name contains a milestone name such as `2024h2`, and it stops at the first walk or load error.
  - `supports` tells mdbook whether a renderer is supported.
  - The defaults of the `issues` command.

Modules:

- `Wrappers` (`wrappers.dfy`): the `Option`, `Result` and `Outcome` values. They stand in for `undefined`, thrown errors and `anyhow::Result`.
- `JsText` (`jstext.dfy`): the JavaScript built-ins the script depends on:
  - `split` on one character, with its inverse `join`;
  - `parseInt` with no radix (white space, sign, `0x` prefix, longest digit run, `NaN`);
  - the decimal text of an integral number;
  - `replace` of one character with a global pattern.
- `ProgressBars` (`progress_bars.dfy`): id parsing, the `IssueData` cache as a class, the lookup loop, and the rendering rule.
  - The JavaScript `Issue` class only wraps a JSON value, so it is the `IssueJson` datatype here.
  - `progressHtml` is split into two steps. `Decide` picks what to show (a `Display` value). `Render` turns that into markup.
- `MdbookGoals` (`mdbook_goals.dfy`): the milestone-name pattern, the `check` loop, `handle_supports` and the command-line defaults.

Outside collaborators become parameters:

- `fetch` is a function from URL to a `FetchOutcome`: a response with a status and a body that may or may not decode as JSON, or a network error.
- `goals_in_dir` is a function from path to pass/fail.
- The preprocessor's `supports_renderer` is a function from renderer name to `bool`.
- The directory walk is the sequence of items it yields. An item is either an entry (path, is-directory, name if valid UTF-8) or a walk error.

Two instrumentation values exist only for the proofs:

- The ghost field `IssueData.requests` records the URLs fetched. It is how the model states "no load is performed".
- The ghost out-parameter `loaded` of `Check` records the directories handed to `goals_in_dir`. It is how the model states "later entries are not visited".

Where the documented behaviour and the code differ, the model follows the code:

- The directory-name test is an unanchored search for `\d\d\d\dh[12]`, so `x2024h2y` is a milestone directory.

One exception, recorded under "## Findings": `IssueData.LoadData` tests the cache by own key, which is the evidently intended behaviour. The cache test as written also finds names inherited from `Object.prototype`. `IssueData.LoadDataAsWritten` models that test and `FindDataAsWritten` the lookup that follows it.

## Model

| member | source | states |
|---|---|---|
| `JsText.Split` | src/update-progress-bars.js:36 | `split` always yields at least one piece |
| `JsText.Join` | src/update-progress-bars.js:36 | `join`, the inverse of `split`: its properties are `JoinSplit` and `SplitJoin` |
| `JsText.SplitPiecesHaveNoSeparator` | src/update-progress-bars.js:36 | no piece of `id.split(':')` contains `:` |
| `JsText.JoinSplit` | src/update-progress-bars.js:36 | joining the pieces with `:` restores the id, so splitting loses nothing |
| `JsText.SplitJoin` | src/update-progress-bars.js:36 | splitting a `:`-join of colon-free pieces gives back exactly those pieces |
| `JsText.ParseInt` | src/update-progress-bars.js:66 | `parseInt` with no radix: leading white space, one sign, a `0x` prefix, the longest digit run, `NaN` as `None`; what it promises is `ParseIntToString` |
| `JsText.IntToString` | src/update-progress-bars.js:102 | the decimal text of a number in the bar's template; `ParseIntToString` and `ProgressBars.BarShowsItsNumbers` state its properties |
| `JsText.ParseIntToString` | src/update-progress-bars.js:66 | `parseInt` of the decimal text of any integer yields that integer |
| `JsText.ReplaceAll` | src/update-progress-bars.js:108-112 | after replacing every `c` by text that contains no `c`, no `c` remains |
| `ProgressBars.ParseId` | src/update-progress-bars.js:36-40 | a failure is the format error for this id; a success has four non-empty, colon-free fields |
| `ProgressBars.ParseFormatId` | src/update-progress-bars.js:36-40 | `milestone:org:repo:issue`, with non-empty colon-free fields and any `:`-led tail, parses back to its four fields |
| `ProgressBars.ParsedIdIsFormatted` | src/update-progress-bars.js:36-40 | every accepted id is its four fields joined by `:`, followed by nothing or by `:` and more text |
| `ProgressBars.ParseIdIgnoresExtraPieces` | src/update-progress-bars.js:36 | pieces after the fourth are ignored: appending `:` and text changes neither acceptance nor the fields |
| `ProgressBars.ApiUrl` | src/update-progress-bars.js:44 | the URL is `/api/`, the milestone, then `.json`, so the milestone can be read back from it |
| `ProgressBars.Lookup` | src/update-progress-bars.js:63-79 | what `#findData` returns for the cached data; `LookupChecksRepository`, `LookupFindsFirst` and `LookupByNumber` state its properties |
| `ProgressBars.Received` | src/update-progress-bars.js:47-52 | the data is accepted exactly when the response is 2xx and its body decodes; a non-2xx status is the HTTP error for that status, and a network failure is re-thrown |
| `ProgressBars.FirstMatch` | src/update-progress-bars.js:72-78 | the linear search stops at the first issue whose number equals the parsed number, or runs off the end if none does |
| `ProgressBars.LookupChecksRepository` | src/update-progress-bars.js:65-70 | the lookup fails exactly when the milestone's repository differs from `org/repo`, with an error naming both, and then returns no issue |
| `ProgressBars.LookupFindsFirst` | src/update-progress-bars.js:66-78 | with the right repository: the result is the first issue with the parsed number; it is `undefined` exactly when no issue has that number; an unparsable issue string finds nothing |
| `ProgressBars.LookupByNumber` | src/update-progress-bars.js:66-76 | the decimal text of the k-th issue's number finds that issue when no earlier issue shares the number |
| `ProgressBars.IssueData.constructor` | src/update-progress-bars.js:28-32 | the cache starts empty and nothing has been fetched |
| `ProgressBars.IssueData.LoadData` | src/update-progress-bars.js:34-61 | a malformed id throws the format error and touches nothing; a cached milestone is not fetched again and the cache is unchanged; otherwise exactly `/api/<milestone>.json` is fetched once, the data is stored only on success, and an HTTP, network or JSON failure is re-thrown with the cache unchanged |
| `ProgressBars.IssueData.FindData` | src/update-progress-bars.js:63-79 | the repository check, then the loop with early return, gives exactly the lookup result |
| `ProgressBars.IssueData.LoadDataAsWritten` | src/update-progress-bars.js:34-61 | `loadData` as written: a milestone that `in` finds, as an own key or an inherited one, is not fetched and goes to the as-written lookup; any other milestone is fetched and stored as in `LoadData` |
| `ProgressBars.CachedAsWritten` | src/update-progress-bars.js:29-42 | the `in` test on the `{}` literal as written: true for a stored milestone and for each of the twelve names in `ObjectPrototypeKeys` that every object inherits from `Object.prototype` |
| `ProgressBars.FindDataAsWritten` | src/update-progress-bars.js:63-70 | `#findData` as written, reached after the `in` test; `IssueData.LoadDataAsWritten` and `PrototypeMilestoneIsNeverFetched` state its effect |
| `ProgressBars.PrototypeMilestoneIsNeverFetched` | src/update-progress-bars.js:29-70 | as written, on a fresh cache, any well-formed id whose milestone is an inherited property name fails with "found undefined" whatever `fetch` would answer, and the request log stays empty |
| `ProgressBars.ToStringIsInherited` | src/update-progress-bars.js:29-42 | `toString:rust-lang:rust-project-goals:1` is such an id |
| `ProgressBars.ProgressElement` | src/update-progress-bars.js:92-104 | a `CLOSED` state gives a badge, Completed exactly when completed equals total; any other state gives a bar with exactly those two numbers |
| `ProgressBars.ErrorMessage` | src/update-progress-bars.js:130 | the warning text is never empty: a present non-empty message is kept, and a missing `Error`, a missing message or an empty one becomes `Error loading status` |
| `ProgressBars.Decide` | src/update-progress-bars.js:115-131 | a warning is shown exactly when there is neither `Tracked` nor `Binary`, and it carries `ErrorMessage` of the `Error` entry |
| `ProgressBars.EscapeHtml` | src/update-progress-bars.js:106-113 | `escapeHtml`, the five chained replacements; `EscapeHtmlIsPerCharacter`, `EscapedHasNoMarkup` and `UnescapeEscape` state its properties |
| `ProgressBars.Render` | src/update-progress-bars.js:95-131 | the markup of each display; `RenderIsInjective` states that it identifies the display |
| `ProgressBars.ProgressHtml` | src/update-progress-bars.js:89-132 | `progressHtml` is `Render` after `Decide`; the lemmas `TrackedTakesPriority` through `ErrorFallbackShowsWarning` state what it shows |
| `ProgressBars.TrackedTakesPriority` | src/update-progress-bars.js:115-118 | when `Tracked` is present it alone decides the output, whatever `Binary` and `Error` hold |
| `ProgressBars.BinaryBeforeError` | src/update-progress-bars.js:120-127 | without `Tracked`, `Binary` decides the output whatever `Error` holds: `OPEN` is (0, 1), any other state (1, 1) |
| `ProgressBars.ClosedIssueShowsBadge` | src/update-progress-bars.js:92-127 | a `CLOSED` issue with tracked or binary progress shows a badge, and it is the Completed badge exactly when completed equals total (always for binary) |
| `ProgressBars.OtherStateShowsBar` | src/update-progress-bars.js:101-127 | any other state shows `<progress value=completed max=total>`: the tracked counts, `0/1` for open binary, `1/1` otherwise |
| `ProgressBars.BarShowsItsNumbers` | src/update-progress-bars.js:102 | the bar's `value` and `max` attributes are quote-free decimal texts that parse back to the two numbers |
| `ProgressBars.ErrorFallbackShowsWarning` | src/update-progress-bars.js:129-131 | with neither `Tracked` nor `Binary`, the output is the warning span titled with the escaped message, or with `Error loading status` |
| `ProgressBars.EscapeHtmlIsPerCharacter` | src/update-progress-bars.js:106-113 | because `&` is replaced first, the five chained replacements equal a per-character mapping to `&amp;` `&lt;` `&gt;` `&quot;` `&#039;` |
| `ProgressBars.EscapeLeavesPlainText` | src/update-progress-bars.js:106-113 | `escapeHtml` leaves text without the five special characters as it is |
| `ProgressBars.EscapedHasNoMarkup` | src/update-progress-bars.js:106-113 | escaped text contains no raw `<`, `>`, `"` or `'` |
| `ProgressBars.UnescapeEscape` | src/update-progress-bars.js:106-113 | decoding the five entities recovers the original text, so escaping loses nothing |
| `ProgressBars.WarningTitleIsSafe` | src/update-progress-bars.js:129-131 | the warning's `title` attribute cannot be closed early and decodes to the message |
| `ProgressBars.RenderIsInjective` | src/update-progress-bars.js:89-132 | different displays (bar values, badge kind, warning message) never produce the same markup |
| `MdbookGoals.IsMilestoneName` | mdbook-goals/src/main.rs:153-166 | a name qualifies exactly when, at some position, four digits, `h`, then `1` or `2` occur |
| `MdbookGoals.MilestoneNameAnywhere` | mdbook-goals/src/main.rs:153-166 | the match is unanchored: any text may precede and follow `YYYYh1`/`YYYYh2` |
| `MdbookGoals.NoHNoMilestone` | mdbook-goals/src/main.rs:153 | a name without `h` never qualifies |
| `MdbookGoals.Selected` | mdbook-goals/src/main.rs:158-168 | the entries whose goals are loaded: directories with a UTF-8 name that contains a milestone name |
| `MdbookGoals.StepError` | mdbook-goals/src/main.rs:156-170 | a walk error ends the check; non-directories, non-UTF-8 names and non-matching names are skipped whatever else holds; a selected directory ends the check exactly when loading its goals fails, with that error unchanged |
| `MdbookGoals.Check` | mdbook-goals/src/main.rs:151-174 | succeeds exactly when no step fails; otherwise returns the error of the first failing step; the directories loaded are the selected ones up to and including that step, none later |
| `MdbookGoals.FirstErrorIgnoresLaterSteps` | mdbook-goals/src/main.rs:155-171 | entries after the first failure cannot change the outcome |
| `MdbookGoals.FirstErrorIsUnique` | mdbook-goals/src/main.rs:155-171 | the failing step that `Check` reports is determined uniquely |
| `MdbookGoals.HandleSupports` | mdbook-goals/src/main.rs:117-126 | Ok exactly when the preprocessor supports the renderer, otherwise the error "renderer `<name>` unsupported" |
| `MdbookGoals.IssuesFromFlags` | mdbook-goals/src/main.rs:44-55 | `issues` commits only when `--commit` is given and pauses 500 ms between commands unless `--sleep` says otherwise |
| `MdbookGoals.RepositoryFromFlag` | mdbook-goals/src/main.rs:26-28 | the repository defaults to `rust-lang/rust-project-goals` |

## Left out

- The DOM work of `updateProgressBars` (src/update-progress-bars.js:1-26) is not modelled: querying the `div` elements, the missing-id check, the `innerHTML` assignment and `console.error`. Neither is the `console.error` with which `loadData` logs a failed load before re-throwing it (src/update-progress-bars.js:55). It is UI and logging.
- The concurrency of the async `forEach` is not modelled. Concurrent lookups for the same milestone can both miss the cache and fetch twice. The model runs `LoadData` calls one after another.
- `fetch` and JSON decoding are parameters, not models. Decoded data is assumed to have the shape the script reads. A missing `issues` or `progress` field makes the script throw a `TypeError`. A `Tracked` entry without `completed` or `total` reads `undefined`: the bar then shows `value="undefined"`, and a closed issue compares `undefined` with the other number. None of these is modelled.
- JsText.ParseInt: reads the digit run as an exact integer. JavaScript yields a double: values above 2^53 are rounded to the nearest double, and ECMAScript allows an implementation to approximate every digit after the 20th significant one. Neither is modelled.
- JsText.ParseIntToString: `parseInt` reads back the decimal text of every integer exactly here, which holds in JavaScript only up to 2^53, for the reason given for `JsText.ParseInt`.
- JsText.IntToString: gives the exact decimal text of the integer. Above 2^53 JavaScript prints the shortest digits that read back to the same double, padded with zeros (`String(2**64)` is `18446744073709552000`), and at and above 1e21 it switches to exponent notation. Neither is modelled. Non-integral `completed`/`total` values are not modelled either.
- MdbookGoals.IsMilestoneName: treats only the ASCII digits `0`-`9` as `\d`. The `regex` crate's `\d` is Unicode-aware by default and also accepts other decimal digits, such as fullwidth `２０２４h2`.
- The directory walk is an input sequence. WalkDir's traversal order and its symlink handling are not modelled; an entry's `isDir` is taken as given.
- `Regex::new` (mdbook-goals/src/main.rs:153) cannot fail for this constant pattern, so its `?` is not modelled.
- `goals_in_dir` is a pass/fail parameter. Its goals are discarded by `check`, and its error is passed on unchanged, as `GoalLoadError` carries only the message. The `goal` module is not part of this model.
- `handle_preprocessing` (mdbook-goals/src/main.rs:129-149) is left out: the mdbook stdin/stdout JSON protocol and the version warning.
- `main`'s dispatch and the StructOpt argument surface (mdbook-goals/src/main.rs:20-114) are left out, apart from the two defaults modelled above.
- The `rfc`, `gh`, `team`, `team_repo`, `markwaydown`, `re`, `util` and `mdbook_preprocessor` modules are not part of this model. They would provide issue reconciliation, comment generation, team-repository generation and the preprocessor's renderer support.

## Findings

| source | as written | input that shows it | evidently intended | confidence | as-written member | corrected member |
|---|---|---|---|---|---|---|
| src/update-progress-bars.js:42 | `milestone in this.#dataMap` tests a `{}` literal, so it is also true for the names the object inherits from `Object.prototype` | an id `toString:rust-lang:rust-project-goals:1`, with nothing cached: no fetch happens, and `#findData` throws "expected repository rust-lang/rust-project-goals but found undefined" | an own-key test, so that any milestone not yet loaded is fetched | not executed; follows from the semantics of the `in` operator | `ProgressBars.PrototypeMilestoneIsNeverFetched` | `ProgressBars.IssueData.LoadData` |
