/** The decision logic of the `mdbook-goals` command: the `check` command,
    which loads the goals of every milestone directory (`2024h2`, `2025h1`,
    ...) under `src` and stops at the first error; the `supports` answer given
    to mdbook; and the defaults of the `issues` command. */
module MdbookGoals {
  import opened Wrappers

  // ---------------------------------------------------------------------
  // Milestone directory names: the pattern `\d\d\d\dh[12]`

  predicate IsDigit(c: char) { '0' <= c <= '9' }

  /** The pattern matches the six characters of `s` that start at `i`. */
  predicate MatchesAt(s: string, i: nat)
    requires i + 6 <= |s|
  {
    && IsDigit(s[i]) && IsDigit(s[i + 1]) && IsDigit(s[i + 2]) && IsDigit(s[i + 3])
    && s[i + 4] == 'h' && (s[i + 5] == '1' || s[i + 5] == '2')
  }

  /** `regex.is_match(name)`: the search is unanchored, so the pattern may
      occur anywhere in the name. */
  function IsMilestoneName(name: string): (b: bool)
    ensures b <==> exists i: nat :: i + 6 <= |name| && MatchesAt(name, i)
    decreases |name|
  {
    if |name| < 6 then false
    else if MatchesAt(name, 0) then true
    else
      var b := IsMilestoneName(name[1..]);
      assert forall i: nat :: i + 6 <= |name| - 1 ==> (MatchesAt(name[1..], i) <==> MatchesAt(name, i + 1));
      assert b ==> exists i: nat :: i + 6 <= |name| && MatchesAt(name, i) by {
        if b {
          var i: nat :| i + 6 <= |name| - 1 && MatchesAt(name[1..], i);
          assert MatchesAt(name, i + 1);
        }
      }
      assert (exists i: nat :: i + 6 <= |name| && MatchesAt(name, i)) ==> b by {
        if exists i: nat :: i + 6 <= |name| && MatchesAt(name, i) {
          var i: nat :| i + 6 <= |name| && MatchesAt(name, i);
          assert i != 0;
          assert MatchesAt(name[1..], i - 1);
        }
      }
      b
  }

  /** Four digits, `h`, and `1` or `2`, surrounded by any text, form a milestone name. */
  lemma MilestoneNameAnywhere(before: string, year: string, half: char, after: string)
    requires |year| == 4 && forall k :: 0 <= k < 4 ==> IsDigit(year[k])
    requires half == '1' || half == '2'
    ensures IsMilestoneName(before + year + ['h', half] + after)
  {
    var s := before + year + ['h', half] + after;
    assert s[|before|..|before| + 4] == year;
    assert MatchesAt(s, |before|);
  }

  /** A name with no `h` is never a milestone name, whatever its digits. */
  lemma NoHNoMilestone(name: string)
    requires 'h' !in name
    ensures !IsMilestoneName(name)
  {
    forall i: nat | i + 6 <= |name|
      ensures !MatchesAt(name, i)
    {
      assert name[i + 4] in name;
    }
  }

  // ---------------------------------------------------------------------
  // The check command

  /** An entry produced by the directory walk; `name` is `None` when the
      file name is not valid UTF-8. */
  datatype Entry = Entry(path: string, isDir: bool, name: Option<string>)

  /** One step of the walk: an entry, or an error reading the tree. */
  datatype WalkItem = Visited(entry: Entry) | WalkFailed(message: string)

  datatype CheckError =
    | WalkError(message: string)
    | GoalLoadError(message: string)

  /** The entries whose goals are loaded: directories with a UTF-8 name
      that contains a milestone name. */
  predicate Selected(e: Entry)
  {
    e.isDir && e.name.Some? && IsMilestoneName(e.name.value)
  }

  /** The error, if any, with which one step of the walk ends the check. */
  function StepError(item: WalkItem, goalsInDir: string -> Outcome<string>): (r: Option<CheckError>)
    ensures item.Visited? && !Selected(item.entry) ==> r.None?
    ensures item.WalkFailed? ==> r == Some(WalkError(item.message))
    ensures item.Visited? && Selected(item.entry) ==>
      (r.None? <==> goalsInDir(item.entry.path).Pass?)
    ensures item.Visited? && Selected(item.entry) && goalsInDir(item.entry.path).Fail? ==>
      r == Some(GoalLoadError(goalsInDir(item.entry.path).error))
  {
    match item
    case WalkFailed(message) => Some(WalkError(message))
    case Visited(e) =>
      if !Selected(e) then None
      else match goalsInDir(e.path)
        case Pass => None
        case Fail(message) => Some(GoalLoadError(message))
  }

  /** The paths of the selected entries of `items`, in walk order. */
  function SelectedPaths(items: seq<WalkItem>): seq<string>
    decreases |items|
  {
    if |items| == 0 then []
    else
      var last := items[|items| - 1];
      SelectedPaths(items[..|items| - 1])
        + (if last.Visited? && Selected(last.entry) then [last.entry.path] else [])
  }

  /** Step `k` is the first one that ends the check with an error. */
  predicate FirstErrorAt(walk: seq<WalkItem>, goalsInDir: string -> Outcome<string>, k: nat)
  {
    && k < |walk|
    && StepError(walk[k], goalsInDir).Some?
    && forall j :: 0 <= j < k ==> StepError(walk[j], goalsInDir).None?
  }

  /** `check`: walks the tree, skips what is not a directory and what has no
      UTF-8 name, loads the goals of each milestone directory, and returns
      the first walk or load error. `loaded` lists the directories handed to
      `goals_in_dir`: none after the one that failed. */
  method Check(walk: seq<WalkItem>, goalsInDir: string -> Outcome<string>)
    returns (r: Outcome<CheckError>, ghost loaded: seq<string>)
    ensures r.Pass? <==> forall i :: 0 <= i < |walk| ==> StepError(walk[i], goalsInDir).None?
    ensures r.Pass? ==> loaded == SelectedPaths(walk)
    ensures r.Fail? ==>
      exists k: nat :: (FirstErrorAt(walk, goalsInDir, k)
        && r.error == StepError(walk[k], goalsInDir).value
        && loaded == SelectedPaths(walk[..k + 1]))
  {
    loaded := [];
    for i := 0 to |walk|
      invariant forall j :: 0 <= j < i ==> StepError(walk[j], goalsInDir).None?
      invariant loaded == SelectedPaths(walk[..i])
    {
      assert walk[..i + 1][..i] == walk[..i];
      match walk[i]
      case WalkFailed(message) =>
        r := Fail(WalkError(message));
        assert FirstErrorAt(walk, goalsInDir, i);
        return;
      case Visited(entry) =>
        if !entry.isDir {
          continue;
        }
        if entry.name.None? {
          continue;
        }
        if !IsMilestoneName(entry.name.value) {
          continue;
        }
        loaded := loaded + [entry.path];
        var goals := goalsInDir(entry.path);
        if goals.Fail? {
          r := Fail(GoalLoadError(goals.error));
          assert FirstErrorAt(walk, goalsInDir, i);
          return;
        }
    }
    assert walk[..|walk|] == walk;
    r := Pass;
  }

  /** Once a step fails, nothing after it matters: extending the walk keeps
      the same first error. */
  lemma FirstErrorIgnoresLaterSteps(walk: seq<WalkItem>, more: seq<WalkItem>, goalsInDir: string -> Outcome<string>, k: nat)
    requires FirstErrorAt(walk, goalsInDir, k)
    ensures FirstErrorAt(walk + more, goalsInDir, k)
    ensures (walk + more)[k] == walk[k]
  {
    assert forall j :: 0 <= j <= k ==> (walk + more)[j] == walk[j];
  }

  /** At most one step is the first error. */
  lemma FirstErrorIsUnique(walk: seq<WalkItem>, goalsInDir: string -> Outcome<string>, k: nat, m: nat)
    requires FirstErrorAt(walk, goalsInDir, k) && FirstErrorAt(walk, goalsInDir, m)
    ensures k == m
  {
  }

  // ---------------------------------------------------------------------
  // The supports command

  /** `handle_supports`: success exactly when the preprocessor supports the
      renderer, otherwise an error naming it. */
  function HandleSupports(supportsRenderer: string -> bool, renderer: string): (r: Outcome<string>)
    ensures r.Pass? <==> supportsRenderer(renderer)
    ensures r.Fail? ==> r.error == "renderer `" + renderer + "` unsupported"
  {
    if supportsRenderer(renderer) then Pass
    else Fail("renderer `" + renderer + "` unsupported")
  }

  // ---------------------------------------------------------------------
  // Defaults of the command line

  type U64 = x: int | 0 <= x < 0x1_0000_0000_0000_0000

  const DefaultRepository: string := "rust-lang/rust-project-goals"
  const DefaultSleepMillis: U64 := 500

  /** The options of the `issues` command. */
  datatype IssuesOptions = IssuesOptions(path: string, sleep: U64, commit: bool)

  /** The `issues` options from its flags: `--sleep` may be omitted, and
      `--commit` is a switch that is off unless given. */
  function IssuesFromFlags(path: string, sleepFlag: Option<U64>, commitFlag: bool): (o: IssuesOptions)
    ensures o.path == path
    ensures o.commit <==> commitFlag
    ensures sleepFlag.None? ==> o.sleep == 500
    ensures sleepFlag.Some? ==> o.sleep == sleepFlag.value
  {
    IssuesOptions(path, if sleepFlag.Some? then sleepFlag.value else DefaultSleepMillis, commitFlag)
  }

  /** The repository used when `--repository` is not given. */
  function RepositoryFromFlag(flag: Option<string>): (repository: string)
    ensures flag.None? ==> repository == "rust-lang/rust-project-goals"
    ensures flag.Some? ==> repository == flag.value
  {
    if flag.Some? then flag.value else DefaultRepository
  }
}
