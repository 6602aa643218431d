/** The retriever: parses an `owner/repo@ref` action reference, builds the
    GitHub commits URL for it, formats the lines printed for a pinned action,
    and looks up the commit SHA through the (abstract) HTTP request. */
module Retriever {
  import opened Wrappers
  import opened Strings

  /** The three capture groups of `([^/]+)/([^@]+)@(.+)`. */
  datatype ParsedAction = ParsedAction(owner: string, repo: string, ref: string)

  /** The text the three groups were matched from. */
  function Show(p: ParsedAction): string
  {
    p.owner + "/" + p.repo + "@" + p.ref
  }

  /** `re.match` of `([^/]+)/([^@]+)@(.+)` against `action`, `None` when it does
      not match. The match is anchored at the start only: `owner` runs up to the
      first `/`, `repo` up to the first `@` after it (it may hold `/`), and `ref`
      up to the first line break, since `.` does not match one. */
  function ParseAction(action: string): (r: Option<ParsedAction>)
    ensures r.Some? ==> r.value.owner != [] && '/' !in r.value.owner
    ensures r.Some? ==> r.value.repo != [] && '@' !in r.value.repo
    ensures r.Some? ==> r.value.ref != [] && '\n' !in r.value.ref
    ensures r.Some? ==> |Show(r.value)| <= |action| && action == Show(r.value) + action[|Show(r.value)|..]
    ensures r.Some? && |Show(r.value)| < |action| ==> action[|Show(r.value)|] == '\n'
    ensures '/' !in action || '@' !in action ==> r.None?
  {
    match SplitFirst(action, '/')
    case None => None
    case Some((owner, rest)) =>
      match SplitFirst(rest, '@')
      case None => None
      case Some((repo, tail)) =>
        var (ref, more) := FirstLine(tail);
        if owner == [] || repo == [] || ref == [] then None
        else
          Reassemble(owner, repo, ref, more);
          Some(ParsedAction(owner, repo, ref))
  }

  /** Re-associating the concatenation a parse splits apart. */
  lemma Reassemble(owner: string, repo: string, ref: string, more: string)
    ensures owner + "/" + (repo + "@" + (ref + more)) == Show(ParsedAction(owner, repo, ref)) + more
  {
  }

  /** The text of a parse, regrouped around the `@` that precedes the ref. */
  lemma ShowAtRef(p: ParsedAction, more: string)
    ensures Show(p) + more == (p.owner + "/" + p.repo) + "@" + (p.ref + more)
  {
  }

  /** Every text of the shape `owner/repo@ref`, optionally followed by further
      lines, parses back into exactly those three parts: the match is unique. */
  lemma ParseActionComplete(owner: string, repo: string, ref: string, more: string)
    requires owner != [] && '/' !in owner
    requires repo != [] && '@' !in repo
    requires ref != [] && '\n' !in ref
    requires more == [] || more[0] == '\n'
    ensures ParseAction(Show(ParsedAction(owner, repo, ref)) + more) == Some(ParsedAction(owner, repo, ref))
  {
    var tail := ref + more;
    var rest := repo + "@" + tail;
    Reassemble(owner, repo, ref, more);
    SplitFirstOfJoin(owner, '/', rest);
    SplitFirstOfJoin(repo, '@', tail);
    FirstLineOfJoin(ref, more);
  }

  /** A single-line reference that parses is exactly `owner/repo@ref`. */
  lemma ParseActionRoundTrip(action: string)
    ensures '\n' !in action && ParseAction(action).Some? ==> Show(ParseAction(action).value) == action
  {
  }

  /** `_parse_action("actions/checkout@v3")` gives `("actions", "checkout", "v3")`. */
  lemma ParseActionCheckout()
    ensures ParseAction("actions/checkout@v3") == Some(ParsedAction("actions", "checkout", "v3"))
  {
    assert Show(ParsedAction("actions", "checkout", "v3")) + "" == "actions/checkout@v3";
    ParseActionComplete("actions", "checkout", "v3", "");
  }

  /** A nested action path keeps everything between the first `/` and the `@` as the repository. */
  lemma ParseActionNested()
    ensures ParseAction("org/mono/sub@v1") == Some(ParsedAction("org", "mono/sub", "v1"))
  {
    assert Show(ParsedAction("org", "mono/sub", "v1")) + "" == "org/mono/sub@v1";
    ParseActionComplete("org", "mono/sub", "v1", "");
  }

  /** `_parse_action("actions/checkout")` finds no match. */
  lemma ParseActionNoRef()
    ensures ParseAction("actions/checkout") == None
  {
    var s := "actions/checkout";
    assert forall i | 0 <= i < |s| :: s[i] != '@';
  }

  const CommitsUrlPrefix: string := "https://api.github.com/repos/"

  /** `GITHUB_API_COMMITS_URL.format(owner, repo, ref)`. */
  function CommitsUrl(owner: string, repo: string, ref: string): (url: string)
    ensures |url| > |CommitsUrlPrefix| && url[..|CommitsUrlPrefix|] == CommitsUrlPrefix
    ensures EndsWith(url, "/commits/" + ref)
  {
    var url := CommitsUrlPrefix + owner + "/" + repo + "/commits/" + ref;
    assert url[|url| - |"/commits/" + ref|..] == "/commits/" + ref;
    url
  }

  /** Distinct `/`-free owners and repositories get distinct URLs: the URL names
      the repository it asks about. */
  lemma CommitsUrlInjective(o1: string, r1: string, f1: string, o2: string, r2: string, f2: string)
    requires '/' !in o1 && '/' !in r1 && '/' !in o2 && '/' !in r2
    requires CommitsUrl(o1, r1, f1) == CommitsUrl(o2, r2, f2)
    ensures o1 == o2 && r1 == r2 && f1 == f2
  {
    var p1 := UrlPath(o1, r1, f1);
    var p2 := UrlPath(o2, r2, f2);
    assert p1 == CommitsUrl(o1, r1, f1)[|CommitsUrlPrefix|..];
    assert p2 == CommitsUrl(o2, r2, f2)[|CommitsUrlPrefix|..];
    SplitFirstOfJoin(o1, '/', r1 + "/" + ("commits/" + f1));
    SplitFirstOfJoin(o2, '/', r2 + "/" + ("commits/" + f2));
    SplitFirstOfJoin(r1, '/', "commits/" + f1);
    SplitFirstOfJoin(r2, '/', "commits/" + f2);
    assert f1 == ("commits/" + f1)[8..];
    assert f2 == ("commits/" + f2)[8..];
  }

  /** The part of a commits URL after the fixed prefix, grouped from the right. */
  lemma UrlPath(owner: string, repo: string, ref: string) returns (path: string)
    ensures path == owner + "/" + (repo + "/" + ("commits/" + ref))
    ensures CommitsUrl(owner, repo, ref) == CommitsUrlPrefix + path
  {
    path := owner + "/" + (repo + "/" + ("commits/" + ref));
  }

  /** `action.split("@")[0]`: everything before the first `@`, or all of it. */
  function BeforeFirstAt(action: string): (head: string)
    ensures '@' !in head && |head| <= |action| && action[..|head|] == head
    ensures |head| < |action| ==> action[|head|] == '@'
  {
    match SplitFirst(action, '@')
    case None => action
    case Some((head, rest)) =>
      assert action == head + (['@'] + rest);
      head
  }

  /** What `str.format` writes for the `sha` field read with `data.get("sha")`:
      the string itself, or `None` when the response has no such field. */
  function FormatSha(sha: Option<string>): string
  {
    match sha
    case None => "None"
    case Some(s) => s
  }

  /** The two lines `_print_pinned_action` prints: `ORIGINAL_ACTION_FORMAT`
      with the action, then `PINNED_ACTION_FORMAT` with the action up to its
      first `@` and the formatted `sha` field. */
  function PinnedActionLines(action: string, sha: Option<string>): (lines: seq<string>)
    ensures |lines| == 2 && lines[0] == "Original: " + action
    ensures var n := |lines[1]| - |FormatSha(sha)| - 11;
      && 0 <= n <= |action|
      && lines[1] == "Pinned:   " + action[..n] + "@" + FormatSha(sha)
      && '@' !in action[..n] && (n < |action| ==> action[n] == '@')
  {
    ["Original: " + action, "Pinned:   " + BeforeFirstAt(action) + "@" + FormatSha(sha)]
  }

  /** A response without a `sha` field prints `None` where the SHA belongs. */
  lemma PinnedLineWithoutSha(action: string)
    ensures var line := PinnedActionLines(action, None)[1];
      |line| >= 15 && line[|line| - 5..] == "@None"
  {
  }

  /** For a parsed action whose owner has no `@`, the pinned line shows
      `owner/repo@sha`: the reference with its ref replaced by the SHA, while
      the first line shows the action as given. */
  lemma PinnedLinesOfParsed(action: string, sha: Option<string>)
    ensures ParseAction(action).Some? && '@' !in ParseAction(action).value.owner ==>
      var p := ParseAction(action).value;
      PinnedActionLines(action, sha) ==
        ["Original: " + action, "Pinned:   " + (p.owner + "/" + p.repo) + "@" + FormatSha(sha)]
  {
    if ParseAction(action).Some? && '@' !in ParseAction(action).value.owner {
      var p := ParseAction(action).value;
      var more := action[|Show(p)|..];
      ShowAtRef(p, more);
      BeforeFirstAtOfJoin(p.owner + "/" + p.repo, p.ref + more);
    }
  }

  /** The owner group `[^/]+` may hold an `@`: `a@b/c@v1` parses into owner
      `a@b`, repository `c` and ref `v1`. */
  lemma ParseActionOwnerWithAt()
    ensures ParseAction("a@b/c@v1") == Some(ParsedAction("a@b", "c", "v1"))
  {
    assert Show(ParsedAction("a@b", "c", "v1")) + "" == "a@b/c@v1";
    ParseActionComplete("a@b", "c", "v1", "");
  }

  /** For such an owner, `split("@")[0]` cuts inside it: the pinned line of
      `a@b/c@v1` shows only `a@<sha>`, not `a@b/c@<sha>`. */
  lemma PinnedLineOwnerWithAt(sha: Option<string>)
    ensures PinnedActionLines("a@b/c@v1", sha)[1] == "Pinned:   a@" + FormatSha(sha)
  {
    OwnerWithAtCut();
    assert "Pinned:   " + "a" + "@" == "Pinned:   a@";
  }

  /** `split("@")[0]` of `a@b/c@v1` is `a`. */
  lemma OwnerWithAtCut()
    ensures BeforeFirstAt("a@b/c@v1") == "a"
  {
    BeforeFirstAtOfJoin("a", "b/c@v1");
    assert "a" + "@" + "b/c@v1" == "a@b/c@v1";
  }

  /** The pinned line of `head@rest`, when `head` has no `@`, shows `head@sha`. */
  lemma PinnedLineOfJoin(head: string, rest: string, sha: Option<string>)
    requires '@' !in head
    ensures PinnedActionLines(head + "@" + rest, sha)[1] == "Pinned:   " + head + "@" + FormatSha(sha)
  {
    BeforeFirstAtOfJoin(head, rest);
  }

  /** The text before the first `@` of `head@rest`, when `head` has none, is `head`. */
  lemma BeforeFirstAtOfJoin(head: string, rest: string)
    requires '@' !in head
    ensures BeforeFirstAt(head + "@" + rest) == head
  {
    SplitFirstOfJoin(head, '@', rest);
  }

  /** `get_action_sha` with the corrected success path. `fetch` stands for the
      HTTP request to a URL: it raises for a failed request (including an error
      status) or returns the `sha` field of the JSON body. An action that does
      not parse makes the tuple unpacking raise; a failed request yields `None`. */
  function GetActionSha(action: string, fetch: string -> Call<Option<string>>): (r: Call<Option<string>>)
    ensures ParseAction(action).None? <==> r.Raised?
    ensures ParseAction(action).Some? ==>
      var p := ParseAction(action).value;
      var answer := fetch(CommitsUrl(p.owner, p.repo, p.ref));
      r == Returned(if answer.Returned? then answer.value else None)
  {
    match ParseAction(action)
    case None => Raised
    case Some(p) =>
      match fetch(CommitsUrl(p.owner, p.repo, p.ref))
      case Raised => Returned(None)
      case Returned(sha) => Returned(sha)
  }

  /** `get_action_sha` as written: the success path prints the pinned lines and
      falls off the end of the function, so it also returns `None`. */
  function GetActionShaAsWritten(action: string, fetch: string -> Call<Option<string>>): (r: Call<Option<string>>)
    ensures ParseAction(action).None? <==> r.Raised?
  {
    match ParseAction(action)
    case None => Raised
    case Some(p) =>
      match fetch(CommitsUrl(p.owner, p.repo, p.ref))
      case Raised => Returned(None)
      case Returned(sha) => Returned(None)
  }

  /** As written, no lookup ever yields a SHA, whatever the server answers:
      for `actions/checkout@v3` answered with `abc123def456`, the corrected
      lookup returns that SHA and the written one returns `None`. */
  lemma AsWrittenDropsSha(action: string, fetch: string -> Call<Option<string>>)
    ensures GetActionShaAsWritten(action, fetch) != Returned(Some("abc123def456"))
    ensures forall s :: GetActionShaAsWritten(action, fetch) != Returned(Some(s))
    ensures (action == "actions/checkout@v3" &&
             fetch(CommitsUrl("actions", "checkout", "v3")) == Returned(Some("abc123def456"))) ==>
      GetActionSha(action, fetch) == Returned(Some("abc123def456"))
  {
    if action == "actions/checkout@v3" {
      ParseActionCheckout();
    }
  }
}
