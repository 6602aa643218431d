# gha-pinner: a verified model of the pinning pipeline

gha-pinner rewrites GitHub Actions workflow files so that every third-party
action is pinned to a commit SHA. Each `uses: owner/repo@ref` becomes
`uses: owner/repo@<sha> # ref`. This project models the two files that do the
work and proves properties of the model:

- `src/editor.py`. It decides whether a ref is already a SHA and whether a
  file is a workflow file. It rewrites every `uses:` occurrence of a workflow
  through the `replace_action` callback of `re.sub`, and applies that rewrite
  to a file.
- `src/retriever.py`. It parses `owner/repo@ref` with
  `([^/]+)/([^@]+)@(.+)`, builds the GitHub commits URL, formats the two
  lines printed for a pinned action, and looks up the SHA.

Modules:

- `Wrappers` (wrappers.dfy) holds `Option` for Python's `None` and `Call`,
  the outcome of code outside the model: it returns a value or raises.
  `Truthy` is Python's truth test on an optional string.
- `Strings` (strings.dfy) holds the `str` operations the code uses: `in`,
  `split`, `rsplit("@", 1)`, `lower()` and `endswith`. It proves the facts
  the rest relies on, such as `Join(Split(s)) == s`, and that `split` of
  `path owner/repo` ends with `owner` and `repo`.
- `Retriever` (retriever.dfy) models the parser, the URL, the printed lines and
  `get_action_sha`.
- `Editor` (editor.dfy) models the SHA and file-name tests, `replace_action`
  (as `Resolve` and `ReplaceAction`) and `re.sub` (as `Substitute`). It also
  holds `Workspace`, a class whose `files` map is updated in place by
  `PinActionInFile`.

The two lookups, the commit SHA of an action and the latest release tag of a
repository, are parameters (`Oracles`). Each answers `Returned(None)`,
`Returned(Some(s))` or `Raised`, and `Resolve` records the queries it made.
A workflow is held in scanned form: a sequence of segments, each plain
`Text` or one `Uses(prefix, value)` match. `Render` gives back the text. The
rewritten content is also given in scanned form (`Rewritten`). That form
renders to exactly the text `re.sub` produces, and is the form in which a
second pass is shown to change nothing.

## Model

| member | source | states |
|---|---|---|
| Strings.SplitLast | src/editor.py:43 | `rsplit("@", 1)`: `None` exactly when there is no `@`; otherwise `s == before + "@" + after`, and `after` holds no `@` |
| Strings.Split | src/editor.py:55 | `split("/")`: at least one part, no part holds the separator, and two or more parts exactly when the separator occurs |
| Strings.JoinSplit | src/editor.py:55 | joining the parts of `split` with the separator gives back the string |
| Strings.SplitEndsWith | src/editor.py:55-58 | for `path owner/repo` with a `/`-free owner and repo, the last two parts of `split("/")` are `owner` and `repo` |
| Strings.SplitFirst | src/retriever.py:32 | the cut at the first `@` (the first `/` and the first `@` cuts of `([^/]+)/([^@]+)@`, and `split("@")[0]`): `None` exactly when there is no such character; otherwise `s == before + c + after`, and `before` holds no `c` |
| Strings.SplitFirstOfJoin | src/retriever.py:32 | splitting at the first `@` undoes joining at an `@` the left part lacks |
| Strings.FirstLine | src/retriever.py:20 | the ref group `(.+)` stops at the first line break: the input is the first line followed by the rest, the first line holds no `\n`, and the rest is empty or starts with `\n` |
| Strings.LowerChar | src/editor.py:26 | `lower()` on one character: an upper-case ASCII letter becomes the lower-case letter at the same place in the alphabet; any other character is kept |
| Strings.Lower | src/editor.py:26 | `file.lower()` keeps the length (its other properties are the rows that follow) |
| Strings.LowerSpec | src/editor.py:26 | the lowered name has no upper-case ASCII letter, every other character is kept at its place, and each upper-case letter becomes a lower-case one |
| Strings.LowerIdempotent | src/editor.py:26 | lower-casing twice is lower-casing once |
| Strings.LowerAppend | src/editor.py:26 | lower-casing a concatenation lower-cases each part |
| Strings.EndsWith | src/editor.py:26 | `endswith`: the suffix is no longer than the string and equals its last characters (a predicate; its properties are the rows that follow) |
| Strings.EndsWithAppend | src/editor.py:26 | every string ends with what was appended to it |
| Strings.EndsWithStem | src/editor.py:26 | a string that ends with a suffix is its stem followed by that suffix |
| Strings.IsSpace | src/editor.py:80 | the `\s` of the `uses:` pattern: the characters for which `str.isspace()` holds, namely the blank, `\t` to `\r`, U+1C to U+1F, U+85, U+A0, U+1680, U+2000 to U+200A, U+2028, U+2029, U+202F, U+205F and U+3000 (a predicate used by `Tokenised`) |
| Retriever.ParseAction | src/retriever.py:18-26 | on a match, owner is non-empty and `/`-free, repo is non-empty and `@`-free, and ref is non-empty and single-line; `owner/repo@ref` is a prefix of the input, followed by nothing or a line break; input lacking `/` or `@` does not match |
| Retriever.ParseActionComplete | src/retriever.py:20-26 | every `owner/repo@ref` meeting those conditions, optionally followed by more lines, parses back to exactly these three parts, so the match is unique |
| Retriever.ParseActionRoundTrip | src/retriever.py:20-26 | a single-line input that parses equals `owner + "/" + repo + "@" + ref` |
| Retriever.ParseActionCheckout | src/test/test_retriever.py:16-19 | `actions/checkout@v3` gives `("actions", "checkout", "v3")` |
| Retriever.ParseActionNested | src/retriever.py:20 | `org/mono/sub@v1` gives repo `mono/sub`: the repository keeps every `/` after the first |
| Retriever.ParseActionNoRef | src/retriever.py:21-24 | `actions/checkout` does not parse |
| Retriever.CommitsUrl | src/retriever.py:41 | the URL starts with `https://api.github.com/repos/` and ends with `/commits/` and the ref |
| Retriever.CommitsUrlInjective | src/retriever.py:41 | for `/`-free owners and repositories, equal URLs mean equal owner, repository and ref |
| Retriever.BeforeFirstAt | src/retriever.py:32 | `split("@")[0]` holds no `@`, is a prefix of the action, and is followed by the first `@` when there is one |
| Retriever.PinnedActionLines | src/retriever.py:29-32 | `_print_pinned_action` prints two lines: `Original: <action>`, then `Pinned:   ` with the action cut before its first `@` (all of it when there is none), `@` and the `sha` field as `str.format` writes it, `None` when `data.get("sha")` finds no field |
| Retriever.PinnedLineWithoutSha | src/retriever.py:32 | when the response has no `sha` field, the pinned line ends in `@None` |
| Retriever.PinnedLinesOfParsed | src/retriever.py:29-32 | for a parsed action whose owner has no `@`, the lines are `Original: <action>` and `Pinned:   owner/repo@<sha>` |
| Retriever.PinnedLineOfJoin | src/retriever.py:32 | the pinned line of `head@rest`, for an `@`-free `head`, shows `head@<sha>` |
| Retriever.ParseActionOwnerWithAt | src/retriever.py:20 | the owner group `[^/]+` admits an `@`: `a@b/c@v1` parses into owner `a@b`, repository `c` and ref `v1` |
| Retriever.OwnerWithAtCut | src/retriever.py:32 | `split("@")[0]` of `a@b/c@v1` is `a` |
| Retriever.PinnedLineOwnerWithAt | src/retriever.py:32 | for that input `split("@")[0]` cuts inside the owner, so the pinned line is `Pinned:   a@<sha>` |
| Retriever.GetActionSha | src/retriever.py:35-50 | corrected lookup: raises exactly when the action does not parse; otherwise returns the `sha` the commits request for the parsed URL answers, or `None` when the request fails |
| Retriever.GetActionShaAsWritten | src/retriever.py:35-50 | lookup as written: raises exactly when the action does not parse |
| Retriever.AsWrittenDropsSha | src/retriever.py:43-47 | the lookup as written never returns a SHA; for `actions/checkout@v3` answered with `abc123def456`, the corrected one returns it |
| Editor.IsShaReference | src/editor.py:18-20 | `_is_sha_reference`: exactly 40 lower-case hexadecimal digits (a predicate; its properties are the rows that follow) |
| Editor.ShaHasNoSeparator | src/editor.py:18-20 | a SHA holds no `@`, no `/` and no blank |
| Editor.ExampleShaAccepted | src/test/test_editor.py:23-26 | the 40-digit SHA of the test table is a SHA reference |
| Editor.ShaReferencesRejected | src/test/test_editor.py:28-46 | a 16-digit, a 50-digit, a `z`-terminated and the `v3` reference are not |
| Editor.IsGithubWorkflowFile | src/editor.py:23-26 | `_is_github_workflow_file`: the lower-cased name ends in `.yml` or `.yaml` (a predicate; its properties are the rows that follow) |
| Editor.WorkflowExtensionAccepted | src/editor.py:23-26 | any name ending in `.yml` or `.yaml`, in any letter case, is a workflow file |
| Editor.WorkflowNameRejected | src/editor.py:23-26 | a name that is empty, or whose last character is not `l` or `L`, is not a workflow file |
| Editor.WorkflowFileIgnoresCase | src/editor.py:26 | lower-casing a name first does not change the verdict |
| Editor.WorkflowFilesAccepted | src/test/test_editor.py:282-296 | `workflow.yml`, `WORKFLOW.YAML` and `/path/to/workflow.yml` are accepted |
| Editor.WorkflowFilesRejected | src/test/test_editor.py:282-296 | `""`, `workflow`, `workflow.txt` and `workflow.md` are not workflow files |
| Editor.OriginalRef | src/editor.py:50-61 | `original_ref`: any ref other than `latest` is its own comment, with no lookup; for `latest` at most one tag lookup, made exactly when the base holds a `/`, and none leaves plain `latest`; a raise comes only from that lookup and exactly when it raises; a `latest` comment starts with `latest` |
| Editor.LatestComment | src/editor.py:59-61 | the comment starts with `latest`; it is plain `latest` exactly when the tag is `None` or empty, and otherwise `latest (T)` |
| Editor.LatestTagLookup | src/editor.py:53-61 | for the base `path owner/repo`, the latest tag is asked of exactly `owner` and `repo`; the comment is `latest (T)` for a non-empty `T`, and plain `latest` otherwise; a raise propagates |
| Editor.OriginalRefUsesOnlyItsQueries | src/editor.py:50-61 | the comment depends on the tag lookup only through the queries recorded |
| Editor.Resolve | src/editor.py:42-78 | a value lacking `@` or `/` is skipped with no lookup; a kept value never has status NeedsPinning; a pinned value is `base@ref` with an `@`-free, non-SHA ref; the SHA lookup of the whole value returned that non-empty SHA |
| Editor.LookUp | src/editor.py:50-72 | the lookup stage: it keeps only on error, and pins only with the SHA returned for the whole value; the SHA query comes last; for a ref other than `latest`, it is the only query and the comment is the ref |
| Editor.LocalAndContainerRefsSkipped | src/editor.py:42-75 | `./x` and `docker://x:1` have no `@`, so they are skipped with no lookup |
| Editor.TagRefLookedUp | src/editor.py:42-72 | a value `base@ref` whose ref is neither a SHA nor `latest` makes exactly one lookup, the SHA of the whole value, and is pinned exactly when that lookup answers a non-empty SHA |
| Editor.TemplateRefLookedUp | src/editor.py:42-72 | the `\S+` token `a/b@${{` of `uses: a/b@${{ env.V }}` is not skipped: the SHA lookup is asked about it, and it is pinned exactly when that lookup answers a non-empty SHA |
| Editor.ResolveOfJoin | src/editor.py:42-46 | `base@ref` with an `@`-free, non-SHA ref reaches the lookup stage with exactly that base and ref |
| Editor.ResolveQueries | src/editor.py:42-63 | skipped and already-pinned values make no lookup; for a pinned value, the SHA lookup is last, and it is alone unless the ref is `latest` |
| Editor.ResolveUsesOnlyItsQueries | src/editor.py:42-78 | two pairs of lookups that agree on the recorded queries give the same decision |
| Editor.LookUpUsesOnlyItsQueries | src/editor.py:50-72 | the lookup stage (tag lookup for `latest`, then the SHA lookup) gives the same decision under any lookups that agree on the queries it recorded |
| Editor.LookUpStageReplace | src/editor.py:50-72 | for `base@ref` reaching the lookup stage: a raise from `original_ref` keeps the occurrence with only its tag query; otherwise the SHA query follows the tag queries, and a non-empty SHA gives `prefix base@sha # comment` with the comment `original_ref` produced |
| Editor.ResolveOfSplit | src/editor.py:42-72 | for a value holding `@` and `/`, split at its last `@` into base and ref: a SHA ref is kept as already pinned; any other ref goes to the lookup stage with that base and ref, and is pinned exactly when `original_ref` returns and the SHA lookup of the whole value answers a truthy SHA, with the comment `original_ref` returned |
| Editor.ReplaceAction | src/editor.py:35-78 | a value lacking `@` or `/` gives back `prefix + value`; otherwise, split at its last `@` into base and ref, the text is `prefix base@sha # comment` exactly when the ref is not a SHA, `original_ref` returns `comment` and the SHA lookup of the whole value answers a non-empty `sha`, and `prefix + value` in every other case |
| Editor.ShaRefKept | src/editor.py:43-47 | a value whose ref is a SHA is returned byte-identical, and neither lookup is consulted |
| Editor.TagRefPinned | src/editor.py:43-67 | with a SHA available, `base@ref` becomes `prefix base@sha # ref` after one lookup of the whole value |
| Editor.LatestRefPinned | src/editor.py:53-67 | for `path owner/repo@latest`: the tag lookup comes first, then the SHA lookup of the whole value; a raising tag lookup keeps the occurrence; otherwise the SHA lookup follows, and when it answers a non-empty SHA the text is `prefix base@sha # latest (T)` for a non-empty tag `T`, or `prefix base@sha # latest` |
| Editor.UnresolvedKept | src/editor.py:63-72 | when the SHA lookup returns nothing, returns an empty string or raises, the occurrence is returned byte-identical |
| Editor.PinVersionedExample | src/test/test_editor.py:94-113 | `actions/checkout@v3` with its SHA found becomes `actions/checkout@<sha> # v3` |
| Editor.AlreadyPinnedExample | src/test/test_editor.py:73-92 | `actions/checkout@<sha>` is kept, with no lookup |
| Editor.CorrectedLookupPins | src/retriever.py:43-47 | with the corrected lookup, `actions/checkout@v3` is pinned when the commits request answers a SHA; the connection is hypothetical, since the editor's import fails (see Left out) |
| Editor.Substitute | src/editor.py:80 | `re.sub` over scanned text: content with no match is returned unchanged |
| Editor.SubstituteAppend | src/editor.py:80 | matches are replaced independently and in order: substituting in a concatenation concatenates the results |
| Editor.SubstituteUnchanged | src/editor.py:80 | a callback that gives each match back as found leaves the text unchanged |
| Editor.PinActionsInWorkflowContent | src/editor.py:29-80 | content with no `uses:` match is returned unchanged |
| Editor.PinAppend | src/editor.py:80 | occurrences are pinned independently and in order |
| Editor.AsWrittenLookupPinsNothing | src/editor.py:63-72 | driven by the retriever's lookup as written, the rewriter returns every workflow unchanged; the connection is hypothetical, since the editor's import fails (see Left out) |
| Editor.RewriteSegment | src/editor.py:35-67 | one segment of the content `pin_action_in_file` writes: it is left as it is exactly when it is not a match that gets pinned; a pinned match becomes the match with the same prefix followed by a comment text |
| Editor.Rewritten | src/editor.py:103 | the scanned form of the content `pin_action_in_file` writes back: every segment rewritten in order (its text is the `RenderRewritten` row) |
| Editor.RenderRewritten | src/editor.py:67 | the scanned form of the rewritten content renders to exactly the text `re.sub` returns |
| Editor.RewrittenIdempotent | src/editor.py:46-47 | when the lookup answers only SHAs and the second pass gets the same answers as the first, rewriting the rewritten content again changes nothing |
| Editor.SecondPassUnchanged | src/editor.py:46-47 | with lookups that answer only SHAs and give the same answers in both passes, a second pass over the pinned content returns the text of the first pass |
| Editor.PinnedStableUnderAnyLookups | src/editor.py:46-47 | an occurrence the first pass pinned (with a lookup answering only SHAs) is left as it is by a second pass under any lookups at all, since its ref is now a SHA |
| Editor.PinnedPairKept | src/editor.py:46-47 | the two segments `base@sha` and ` # comment` of a pinned occurrence are left alone by a rewrite pass under any lookups |
| Editor.RewrittenTokenised | src/editor.py:67 | rewriting keeps every match delimited as the `uses:` pattern sees it: the new value is one token, and the comment starts with a blank |
| Editor.Workspace.PinActionInFile | src/editor.py:83-112 | a missing path or a non-workflow name leaves every file alone with its outcome; otherwise only that file is replaced by its pinned content |
| Editor.PinFileTwice | src/editor.py:83-112 | pinning a file twice, with lookups that answer only SHAs and give the same answers both times, leaves it as the first pass did |

## Left out

- The HTTP transport of `get_action_sha` is a parameter, `fetch`. That covers `requests.get`, `raise_for_status` and `.json()`. A raised request exception becomes a `Raised` answer.
- Retriever.GetActionSha: a `Raised` answer of `fetch` stands only for `requests.exceptions.RequestException`, the one exception caught at `src/retriever.py:48`. Other errors escape `get_action_sha` and are not modelled; for example, `data.get` on a JSON body that is not an object raises `AttributeError`.
- `get_latest_release_tag` is imported by `src/editor.py:15`, but `src/retriever.py` does not define it. Its definition is not part of this model, so it is the `latestTag` lookup. As the files stand, that import fails and the editor module cannot be loaded at all. `Editor.CorrectedLookupPins` and `Editor.AsWrittenLookupPinsNothing` therefore describe a hypothetical connection of the editor to this retriever.
- Every `print` and message constant is left out. The output of `_print_pinned_action` is modelled as the list of its two lines.
- File I/O in `pin_action_in_file` is left out: opening, reading, writing and the `except Exception` around them. Files are a map from path to scanned content. A file that cannot be read or written is not modelled.
- `SHA_REGEX_PATTERN`, `WORKFLOW_ACTION_PATTERN` and `WORKFLOW_FILE_EXTENSIONS` are imported at `src/editor.py:10-13` but are not defined in `src/common/constants.py`. The model encodes them as explicit predicates.
- Editor.IsShaReference: a SHA is taken as exactly 40 lower-case hexadecimal digits. This follows the test table and the common GitHub form. An upper-case SHA would be judged differently if the missing pattern allows it.
- Editor.Substitute: there is no regex scanner. Content arrives already split into matches of `\s+uses:\s+\S+` and plain text. `Tokenised` states the shape that split must have. `RewrittenTokenised` shows that rewriting keeps that shape, but the model does not prove that a real scan of the rewritten text finds the same matches. For example, a comment ending in `uses:` could be re-scanned.
- Strings.Lower and Strings.LowerChar: `str.lower()` is modelled on ASCII letters only; every other character is kept. This does not change the verdict of `IsGithubWorkflowFile`. In Python no character outside ASCII lower-cases to text holding `.`, `y`, `a`, `m` or `l`, so the characters of a `.yml` or `.yaml` ending always come from ASCII characters, which both lower-case alike. Only U+0130 and U+212A lower-case to text with any ASCII character at all (`i` and `k`).
- `src/main.py` (the CLI), `pin_actions_in_dir`, the validate mode and the per-occurrence result list are left out. The tests exercise them, but `src/editor.py` defines none of them.
- Retriever.PinnedActionLines: the owner group `[^/]+` admits an `@`, but the pinned line cuts the action at its first `@`. For `a@b/c@v1` it therefore shows `a@<sha>`, not `a@b/c@<sha>`. The model keeps this behaviour (`Retriever.PinnedLineOwnerWithAt`), and `Retriever.PinnedLinesOfParsed` is stated only for owners without an `@`.
- Retriever.ParseAction: a failed match is `None`, as the code returns. `src/test/test_retriever.py:21-24` expects an empty triple instead.
- Editor.LatestTagLookup: the code takes the owner and repository from the last two `/`-segments of the text before the last `@`. It does not use the parser's first-`/` split. The model follows the code.
- Editor.Resolve: the only skip rule in the code is the test for both `@` and `/` at `src/editor.py:42`, whose `else` at `src/editor.py:73-75` returns the match as found. Local paths (`./x`) and container images (`docker://x:1`) have no `@`, so they are skipped (`Editor.LocalAndContainerRefsSkipped`). A template reference is not: for `uses: a/b@${{ env.V }}` the `\S+` group matches `a/b@${{`, which is sent to the SHA lookup and pinned when that lookup answers a SHA (`Editor.TemplateRefLookedUp`). The model follows the code; it has no rule that keeps a reference holding `{{` away from the lookups.
- Editor.RewrittenIdempotent, Editor.SecondPassUnchanged and Editor.PinFileTwice: the lookups are modelled as fixed functions of their query, so a second pass with the same `Oracles` gets the same answers as the first. The program queries the network again on each pass (`src/editor.py:59` and `src/editor.py:63`), so a lookup that failed the first time may succeed the second time and pin an occurrence the first pass kept. What holds under any second-pass lookups is `Editor.PinnedStableUnderAnyLookups`: what the first pass pinned stays as it is.
- Editor.Resolve: only the two lookups can raise in the model. The `except Exception` at `src/editor.py:76-78` also covers errors that cannot arise from these string operations.

## Findings

| source | as written | input that shows it | evidently intended | confidence | as-written member | corrected member |
|---|---|---|---|---|---|---|
| src/retriever.py:43-47 | on success, `get_action_sha` prints the pinned lines and falls off the end, so it returns `None` | `actions/checkout@v3` with the commits request answering `{"sha": "abc123def456"}` returns `None` | return the `sha` of the response | high (not executed) | Retriever.AsWrittenDropsSha | Retriever.GetActionSha |
