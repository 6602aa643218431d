/** The editor: decides whether a ref is already a commit SHA, whether a file
    is a workflow file, and rewrites every `uses:` occurrence of a workflow so
    that its action is pinned to a SHA with the original ref kept as a comment.

    Workflow text is given in scanned form: a sequence of segments, each either
    plain text or one match of the `uses:` pattern, split into the prefix group
    (indentation, `uses:` and the blanks after it) and the action value. */
module Editor {
  import opened Wrappers
  import opened Strings
  import Retriever

  /** The kinds of outcome one occurrence can have. */
  datatype ActionStatus = NeedsPinning | AlreadyPinned | Skipped | Error

  // ---------------------------------------------------------------------------
  // SHA references and workflow file names

  predicate IsLowerHex(c: char)
  {
    '0' <= c <= '9' || 'a' <= c <= 'f'
  }

  /** `_is_sha_reference`: exactly 40 lower-case hexadecimal digits. */
  predicate IsShaReference(ref: string)
  {
    |ref| == 40 && forall i | 0 <= i < |ref| :: IsLowerHex(ref[i])
  }

  /** A SHA holds neither the `@` that ends an action's base nor a blank. */
  lemma ShaHasNoSeparator(sha: string)
    requires IsShaReference(sha)
    ensures '@' !in sha && '/' !in sha
    ensures forall i | 0 <= i < |sha| :: !IsSpace(sha[i])
  {
    assert forall i | 0 <= i < |sha| :: IsLowerHex(sha[i]);
  }

  /** The sixteen lower-case hexadecimal digits in order. */
  const HexDigits: string := "0123456789abcdef"

  /** The commit SHA of the test tables, `0123456789abcdef0123456789abcdef01234567`. */
  const ExampleSha: string := HexDigits + HexDigits + HexDigits[..8]

  /** The full 40-digit SHA of the test table is accepted. */
  lemma ExampleShaAccepted()
    ensures IsShaReference(ExampleSha)
  {
    assert forall i | 0 <= i < |HexDigits| :: IsLowerHex(HexDigits[i]);
    LowerHexJoin(HexDigits, HexDigits);
    LowerHexJoin(HexDigits + HexDigits, HexDigits[..8]);
  }

  /** Two runs of hexadecimal digits join into one. */
  lemma LowerHexJoin(a: string, b: string)
    requires forall i | 0 <= i < |a| :: IsLowerHex(a[i])
    requires forall i | 0 <= i < |b| :: IsLowerHex(b[i])
    ensures forall i | 0 <= i < |a + b| :: IsLowerHex((a + b)[i])
  {
    forall i | 0 <= i < |a + b| ensures IsLowerHex((a + b)[i]) {
      if i >= |a| {
        assert (a + b)[i] == b[i - |a|];
      }
    }
  }

  /** The references the SHA test table rejects: a 16-digit prefix, a 50-digit
      string, one ending in `z` and the tag `v3`. */
  lemma ShaReferencesRejected()
    ensures !IsShaReference("0123456789abcdef")
    ensures !IsShaReference("0123456789abcdef0123456789abcdef012345670123456789")
    ensures !IsShaReference("0123456789abcdef0123456789abcdef0123456z")
    ensures !IsShaReference("v3")
  {
    var z := "0123456789abcdef0123456789abcdef0123456z";
    assert z[39] == 'z';
  }

  /** `_is_github_workflow_file`: the lower-cased name ends in `.yml` or `.yaml`. */
  predicate IsGithubWorkflowFile(file: string)
  {
    EndsWith(Lower(file), ".yml") || EndsWith(Lower(file), ".yaml")
  }

  /** Any name or path whose extension is `.yml` or `.yaml` in any letter case
      is a workflow file. */
  lemma WorkflowExtensionAccepted(stem: string, ext: string)
    requires Lower(ext) == ".yml" || Lower(ext) == ".yaml"
    ensures IsGithubWorkflowFile(stem + ext)
  {
    LowerAppend(stem, ext);
    var lowered := Lower(stem) + Lower(ext);
    assert lowered[|lowered| - |ext|..] == Lower(ext);
  }

  /** Letter case is all the test ignores: a lower-cased name is judged as the name is. */
  lemma WorkflowFileIgnoresCase(file: string)
    ensures IsGithubWorkflowFile(Lower(file)) == IsGithubWorkflowFile(file)
  {
    LowerIdempotent(file);
  }

  /** A string whose last character differs from the last one of a non-empty
      suffix does not end with it. */
  lemma NotEndsWith(s: string, suffix: string)
    requires suffix != [] && (s == [] || s[|s| - 1] != suffix[|suffix| - 1])
    ensures !EndsWith(s, suffix)
  {
    if |suffix| <= |s| {
      assert s[|s| - |suffix|..][|suffix| - 1] == s[|s| - 1];
    }
  }

  /** A name whose last character is not an `l` in either case (the empty name,
      `workflow`, `.txt`, `.md`) is not a workflow file. */
  lemma WorkflowNameRejected(file: string)
    requires file == [] || LowerChar(file[|file| - 1]) != 'l'
    ensures !IsGithubWorkflowFile(file)
  {
    var lowered := Lower(file);
    assert lowered == [] || lowered[|lowered| - 1] == LowerChar(file[|file| - 1]);
    NotEndsWith(lowered, ".yml");
    NotEndsWith(lowered, ".yaml");
  }

  /** The accepted names of the file-name test table. */
  lemma WorkflowFilesAccepted()
    ensures IsGithubWorkflowFile("workflow.yml") && IsGithubWorkflowFile("WORKFLOW.YAML")
    ensures IsGithubWorkflowFile("/path/to/workflow.yml")
  {
    LowerExtensions();
    WorkflowExtensionAccepted("workflow", ".yml");
    assert "workflow" + ".yml" == "workflow.yml";
    WorkflowExtensionAccepted("WORKFLOW", ".YAML");
    assert "WORKFLOW" + ".YAML" == "WORKFLOW.YAML";
    WorkflowExtensionAccepted("/path/to/workflow", ".yml");
    assert "/path/to/workflow" + ".yml" == "/path/to/workflow.yml";
  }

  /** The two extensions of the test table, lower-cased. */
  lemma LowerExtensions()
    ensures Lower(".yml") == ".yml" && Lower(".YAML") == ".yaml"
  {
    assert Lower(".yml") == ".yml";
    assert Lower(".YAML") == ".yaml";
  }

  /** The rejected names of the file-name test table. */
  lemma WorkflowFilesRejected()
    ensures !IsGithubWorkflowFile("") && !IsGithubWorkflowFile("workflow")
    ensures !IsGithubWorkflowFile("workflow.txt") && !IsGithubWorkflowFile("workflow.md")
  {
    WorkflowNameRejected("");
    WorkflowNameRejected("workflow");
    WorkflowNameRejected("workflow.txt");
    WorkflowNameRejected("workflow.md");
  }

  // ---------------------------------------------------------------------------
  // One occurrence: the `replace_action` callback

  /** A call made to one of the two lookups. */
  datatype Query = ShaLookup(action: string) | TagLookup(owner: string, repo: string)

  /** The two lookups the rewriter calls: `get_action_sha(action)` and
      `get_latest_release_tag(owner, repo)`. Either may raise. */
  datatype Oracles = Oracles(
    sha: string -> Call<Option<string>>,
    latestTag: (string, string) -> Call<Option<string>>)

  /** `o1` and `o2` answer the query `q` alike. */
  predicate AgreeOn(o1: Oracles, o2: Oracles, q: Query)
  {
    match q
    case ShaLookup(a) => o1.sha(a) == o2.sha(a)
    case TagLookup(owner, repo) => o1.latestTag(owner, repo) == o2.latestTag(owner, repo)
  }

  /** What `replace_action` decides for one action value: keep the occurrence
      (with its status), or pin it; in both cases with the lookups it made, in order. */
  datatype Resolution =
    | Keep(status: ActionStatus, queries: seq<Query>)
    | Pin(base: string, ref: string, sha: string, comment: string, queries: seq<Query>)
  {
    function Status(): ActionStatus
    {
      if Pin? then NeedsPinning else status
    }
  }

  /** `original_ref`: the ref itself, or for `latest` the text `latest (T)` when
      the latest release tag of the last two `/`-segments of the base is a
      non-empty `T`. Also the lookups made; `Raised` when the tag lookup raises. */
  function OriginalRef(base: string, ref: string, o: Oracles): (c: (Call<string>, seq<Query>))
    ensures ref != "latest" ==> c == (Returned(ref), [])
    ensures ref == "latest" ==> |c.1| <= 1 && (c.1 == [] <==> '/' !in base)
    ensures ref == "latest" && c.1 == [] ==> c.0 == Returned("latest")
    ensures c.0.Raised? ==> c.1 != []
    ensures c.1 != [] ==> c.1[0].TagLookup? && (c.0.Raised? <==> o.latestTag(c.1[0].owner, c.1[0].repo).Raised?)
    ensures ref == "latest" && c.0.Returned? ==> |c.0.value| >= 6 && c.0.value[..6] == "latest"
  {
    if ref != "latest" then (Returned(ref), [])
    else
      var parts := Split(base, '/');
      if |parts| < 2 then (Returned("latest"), [])
      else
        var owner, repo := parts[|parts| - 2], parts[|parts| - 1];
        var queries := [TagLookup(owner, repo)];
        match o.latestTag(owner, repo)
        case Raised => (Raised, queries)
        case Returned(tag) => (Returned(LatestComment(tag)), queries)
  }

  /** The comment for the ref `latest`, given the latest release tag found. */
  function LatestComment(tag: Option<string>): (comment: string)
    ensures |comment| >= 6 && comment[..6] == "latest"
    ensures comment == "latest" <==> !Truthy(tag)
    ensures Truthy(tag) ==> comment[6..] == " (" + tag.value + ")"
  {
    if Truthy(tag) then "latest (" + tag.value + ")" else "latest"
  }

  /** `original_ref` consults nothing but the tag lookups it records. */
  lemma OriginalRefUsesOnlyItsQueries(base: string, ref: string, o1: Oracles, o2: Oracles)
    requires forall q | q in OriginalRef(base, ref, o1).1 :: AgreeOn(o1, o2, q)
    ensures OriginalRef(base, ref, o1) == OriginalRef(base, ref, o2)
  {
    if ref == "latest" {
      var parts := Split(base, '/');
      if |parts| >= 2 {
        assert TagLookup(parts[|parts| - 2], parts[|parts| - 1]) in OriginalRef(base, ref, o1).1;
      }
    }
  }

  /** For a base ending in `owner/repo`, `original_ref` of `latest` asks for the
      latest release tag of exactly that owner and repository. */
  lemma LatestTagLookup(path: string, owner: string, repo: string, o: Oracles)
    requires '/' !in owner && '/' !in repo
    requires path == [] || path[|path| - 1] == '/'
    ensures var c := OriginalRef(path + (owner + "/" + repo), "latest", o);
      && c.1 == [TagLookup(owner, repo)]
      && (c.0.Raised? <==> o.latestTag(owner, repo).Raised?)
      && (c.0.Returned? ==> c.0.value == LatestComment(o.latestTag(owner, repo).value))
  {
    SplitEndsWith(path, owner, repo, '/');
  }

  /** The decision `replace_action` takes for the action value `action`. A value
      without both `@` and `/` is skipped without a lookup; one whose text after
      the last `@` is a SHA is already pinned, again without a lookup. Otherwise
      the SHA lookup is asked about the whole original value, and only a non-empty
      SHA pins it, keeping the text before the last `@`. Everything else (a
      failed or raising lookup) keeps the occurrence as an error. */
  function Resolve(action: string, o: Oracles): (r: Resolution)
    ensures !('@' in action && '/' in action) ==> r == Keep(Skipped, [])
    ensures r.Keep? ==> r.status != NeedsPinning
    ensures r.Pin? ==> action == r.base + "@" + r.ref && '@' !in r.ref && '/' in action && !IsShaReference(r.ref)
    ensures r.Pin? ==> o.sha(action) == Returned(Some(r.sha)) && r.sha != ""
  {
    if '@' in action && '/' in action then
      var (base, ref) := SplitLast(action, '@').value;
      if IsShaReference(ref) then Keep(AlreadyPinned, [])
      else LookUp(action, base, ref, o)
    else Keep(Skipped, [])
  }

  /** The lookup stage of `replace_action`, for a value split into `base` and a
      `ref` that is not a SHA: the comment text first (which may look up the
      latest release), then the SHA of the whole value. Only a non-empty SHA pins;
      an exception or an empty answer is an error. */
  function LookUp(action: string, base: string, ref: string, o: Oracles): (r: Resolution)
    ensures r.Keep? ==> r.status == Error
    ensures r.Pin? ==> r.base == base && r.ref == ref && o.sha(action) == Returned(Some(r.sha)) && r.sha != ""
    ensures r.Pin? ==> r.queries != [] && r.queries[|r.queries| - 1] == ShaLookup(action)
    ensures ref != "latest" ==> r.queries == [ShaLookup(action)] && (r.Pin? ==> r.comment == ref)
  {
    var (comment, tagQueries) := OriginalRef(base, ref, o);
    if comment.Raised? then Keep(Error, tagQueries)
    else
      var queries := tagQueries + [ShaLookup(action)];
      var answer := o.sha(action);
      if answer.Returned? && Truthy(answer.value) then
        Pin(base, ref, answer.value.value, comment.value, queries)
      else Keep(Error, queries)
  }

  /** A value `base@ref` whose ref has no `@` and is not a SHA goes to the
      lookup stage with exactly that base and ref. */
  lemma ResolveOfJoin(base: string, ref: string, o: Oracles)
    requires '@' !in ref && !IsShaReference(ref) && '/' in base + "@" + ref
    ensures Resolve(base + "@" + ref, o) == LookUp(base + "@" + ref, base, ref, o)
  {
    SplitLastOfJoin(base, '@', ref);
  }

  /** Local paths and container images have no `@`, so they are skipped without
      a lookup. */
  lemma LocalAndContainerRefsSkipped(o: Oracles)
    ensures Resolve("./x", o) == Keep(Skipped, [])
    ensures Resolve("docker://x:1", o) == Keep(Skipped, [])
  {
    assert forall i | 0 <= i < |"./x"| :: "./x"[i] != '@';
    assert forall i | 0 <= i < |"docker://x:1"| :: "docker://x:1"[i] != '@';
  }

  /** The only skip rule is the `@`/`/` test: for `uses: a/b@${{ env.V }}` the
      `\S+` group matches `a/b@${{`, whose ref `${{` is not a SHA, so the value
      goes to the SHA lookup and is pinned whenever that lookup answers one. */
  lemma TemplateRefLookedUp(o: Oracles)
    ensures var r := Resolve("a/b@${{", o);
      && r.queries == [ShaLookup("a/b@${{")]
      && (r.Pin? <==> o.sha("a/b@${{").Returned? && Truthy(o.sha("a/b@${{").value))
  {
    TemplateToken();
    TagRefLookedUp("a/b", "${{", o);
  }

  /** The pieces of the `a/b@${{` token. */
  lemma TemplateToken()
    ensures "a/b" + "@" + "${{" == "a/b@${{"
    ensures '/' in "a/b" && '@' !in "${{" && "${{" != "latest" && !IsShaReference("${{")
  {
    assert "a/b"[1] == '/';
  }

  /** A value `base@ref` whose ref is neither a SHA nor `latest` is sent to the
      SHA lookup, and to nothing else; it is pinned exactly when that lookup
      answers a non-empty SHA. */
  lemma TagRefLookedUp(base: string, ref: string, o: Oracles)
    requires '/' in base && '@' !in ref && ref != "latest" && !IsShaReference(ref)
    ensures var action := base + "@" + ref;
      var r := Resolve(action, o);
      && r.queries == [ShaLookup(action)]
      && (r.Pin? <==> o.sha(action).Returned? && Truthy(o.sha(action).value))
  {
    var action := base + "@" + ref;
    assert action[..|base|] == base;
    ResolveOfJoin(base, ref, o);
  }

  /** `replace_action` on a match with prefix group `prefix` and value `action`.
      A value without both `@` and `/`, one whose text after the last `@` is a
      SHA, one whose tag lookup raises and one whose SHA lookup gives no
      non-empty SHA all come back byte-identical. Otherwise the text is the
      prefix, the value up to its last `@`, `@`, the SHA, ` # ` and the comment
      `original_ref` gave. */
  function ReplaceAction(prefix: string, action: string, o: Oracles): (text: string)
    ensures !('@' in action && '/' in action) ==> text == prefix + action
    ensures '@' in action && '/' in action ==>
      var (base, ref) := SplitLast(action, '@').value;
      var comment := OriginalRef(base, ref, o).0;
      var answer := o.sha(action);
      if !IsShaReference(ref) && comment.Returned? && answer.Returned? && Truthy(answer.value)
      then text == prefix + base + "@" + answer.value.value + " # " + comment.value
      else text == prefix + action
  {
    ResolveOfSplit(action, o);
    var r := Resolve(action, o);
    if r.Pin? then prefix + r.base + "@" + r.sha + " # " + r.comment else prefix + action
  }

  /** A value with both `@` and `/`, split at its last `@`: a SHA ref is kept
      as already pinned, any other ref goes to the lookup stage, and that stage
      pins exactly when `original_ref` returns and the SHA lookup gives a
      non-empty SHA. */
  lemma ResolveOfSplit(action: string, o: Oracles)
    ensures '@' in action && '/' in action ==>
      var (base, ref) := SplitLast(action, '@').value;
      && (IsShaReference(ref) ==> Resolve(action, o) == Keep(AlreadyPinned, []))
      && (!IsShaReference(ref) ==> Resolve(action, o) == LookUp(action, base, ref, o))
      && (Resolve(action, o).Pin? <==>
            !IsShaReference(ref) && OriginalRef(base, ref, o).0.Returned? &&
            o.sha(action).Returned? && Truthy(o.sha(action).value))
      && (Resolve(action, o).Pin? ==> Resolve(action, o).comment == OriginalRef(base, ref, o).0.value)
  {
    if '@' in action && '/' in action {
      var (base, ref) := SplitLast(action, '@').value;
      if !IsShaReference(ref) {
        assert Resolve(action, o) == LookUp(action, base, ref, o);
      }
    }
  }

  /** The lookups the decision records: none for a skipped or already pinned
      value; for a pinned one, the SHA lookup of the whole value comes last, and
      it is the only lookup unless the ref is `latest`. */
  lemma ResolveQueries(action: string, o: Oracles)
    ensures var r := Resolve(action, o);
      r.Keep? && r.status in {Skipped, AlreadyPinned} ==> r.queries == []
    ensures var r := Resolve(action, o);
      r.Pin? ==> r.queries != [] && r.queries[|r.queries| - 1] == ShaLookup(action)
    ensures var r := Resolve(action, o);
      r.Pin? && r.ref != "latest" ==> r.comment == r.ref && r.queries == [ShaLookup(action)]
  {
    if '@' in action && '/' in action {
      var (base, ref) := SplitLast(action, '@').value;
      if !IsShaReference(ref) {
        assert Resolve(action, o) == LookUp(action, base, ref, o);
      }
    }
  }

  /** The decision depends on the lookups only through the queries it records:
      two pairs of lookups that answer those queries alike lead to the same result. */
  lemma ResolveUsesOnlyItsQueries(action: string, o1: Oracles, o2: Oracles)
    requires forall q | q in Resolve(action, o1).queries :: AgreeOn(o1, o2, q)
    ensures Resolve(action, o1) == Resolve(action, o2)
  {
    if '@' in action && '/' in action {
      var (base, ref) := SplitLast(action, '@').value;
      if !IsShaReference(ref) {
        LookUpUsesOnlyItsQueries(action, base, ref, o1, o2);
      }
    }
  }

  /** The lookup stage consults nothing but the lookups it records. */
  lemma LookUpUsesOnlyItsQueries(action: string, base: string, ref: string, o1: Oracles, o2: Oracles)
    requires forall q | q in LookUp(action, base, ref, o1).queries :: AgreeOn(o1, o2, q)
    ensures LookUp(action, base, ref, o1) == LookUp(action, base, ref, o2)
  {
    var c1 := OriginalRef(base, ref, o1);
    var queries := LookUp(action, base, ref, o1).queries;
    if c1.0.Raised? {
      assert queries == c1.1;
    } else {
      assert queries == c1.1 + [ShaLookup(action)];
      assert ShaLookup(action) in queries;
    }
    assert forall q | q in c1.1 :: q in queries;
    OriginalRefUsesOnlyItsQueries(base, ref, o1, o2);
  }

  /** An occurrence whose ref is already a SHA is kept byte-identical, and no
      lookup is made (it is a plain skip when the value has no `/`). */
  lemma ShaRefKept(prefix: string, base: string, sha: string, o: Oracles)
    requires IsShaReference(sha)
    ensures var action := base + "@" + sha;
      Resolve(action, o) == Keep(if '/' in action then AlreadyPinned else Skipped, []) &&
      ReplaceAction(prefix, action, o) == prefix + action
  {
    ShaHasNoSeparator(sha);
    SplitLastOfJoin(base, '@', sha);
  }

  /** A tag or branch ref with a SHA available is pinned to
      `prefix base@sha # ref`, after exactly one lookup of the whole value. */
  lemma TagRefPinned(prefix: string, base: string, ref: string, sha: string, o: Oracles)
    requires '@' !in ref && ref != "latest" && !IsShaReference(ref)
    requires '/' in base + "@" + ref
    requires o.sha(base + "@" + ref) == Returned(Some(sha)) && sha != ""
    ensures var action := base + "@" + ref;
      Resolve(action, o) == Pin(base, ref, sha, ref, [ShaLookup(action)]) &&
      ReplaceAction(prefix, action, o) == prefix + base + "@" + sha + " # " + ref
  {
    ResolveOfJoin(base, ref, o);
  }

  /** For the ref `latest` of `path owner/repo`, the latest release tag of
      `owner`/`repo` is looked up first, then the SHA of the whole original
      value ending in `@latest`. The comment is `latest (T)` for a non-empty tag
      `T` and plain `latest` otherwise; a raising tag lookup keeps the occurrence. */
  lemma LatestRefPinned(prefix: string, path: string, owner: string, repo: string, o: Oracles)
    requires '/' !in owner && '/' !in repo
    requires path == [] || path[|path| - 1] == '/'
    ensures var action := path + (owner + "/" + repo) + "@" + "latest";
      o.latestTag(owner, repo).Raised? ==>
        Resolve(action, o) == Keep(Error, [TagLookup(owner, repo)]) &&
        ReplaceAction(prefix, action, o) == prefix + action
    ensures var action := path + (owner + "/" + repo) + "@" + "latest";
      o.latestTag(owner, repo).Returned? ==>
        Resolve(action, o).queries == [TagLookup(owner, repo), ShaLookup(action)]
    ensures var base := path + (owner + "/" + repo);
      var action := base + "@" + "latest";
      var tag := o.latestTag(owner, repo);
      tag.Returned? && o.sha(action).Returned? && Truthy(o.sha(action).value) ==>
        ReplaceAction(prefix, action, o) ==
          prefix + base + "@" + o.sha(action).value.value + " # " + LatestComment(tag.value)
  {
    var base := path + (owner + "/" + repo);
    var action := base + "@" + "latest";
    assert base[|path| + |owner|] == '/';
    assert action[|path| + |owner|] == '/';
    LatestTagLookup(path, owner, repo, o);
    LookUpStageReplace(prefix, base, "latest", o);
  }

  /** A value `base@ref` that reaches the lookup stage, in terms of what
      `original_ref` gave for it: an exception there keeps the occurrence;
      otherwise the SHA lookup follows, and a non-empty SHA pins with the comment
      `original_ref` gave. */
  lemma LookUpStageReplace(prefix: string, base: string, ref: string, o: Oracles)
    requires '@' !in ref && !IsShaReference(ref) && '/' in base + "@" + ref
    ensures var action := base + "@" + ref;
      var c := OriginalRef(base, ref, o);
      c.0.Raised? ==> Resolve(action, o) == Keep(Error, c.1) && ReplaceAction(prefix, action, o) == prefix + action
    ensures var action := base + "@" + ref;
      var c := OriginalRef(base, ref, o);
      c.0.Returned? ==> Resolve(action, o).queries == c.1 + [ShaLookup(action)]
    ensures var action := base + "@" + ref;
      var c := OriginalRef(base, ref, o);
      c.0.Returned? && o.sha(action).Returned? && Truthy(o.sha(action).value) ==>
        ReplaceAction(prefix, action, o) == prefix + base + "@" + o.sha(action).value.value + " # " + c.0.value
  {
    ResolveOfJoin(base, ref, o);
    LookUpOfOriginalRef(base + "@" + ref, base, ref, o);
  }

  /** The lookup stage in terms of what `original_ref` gave: an exception
      there keeps the value with only the tag lookup recorded; otherwise the SHA
      lookup follows, and a non-empty SHA pins with the comment it gave. */
  lemma LookUpOfOriginalRef(action: string, base: string, ref: string, o: Oracles)
    ensures var c := OriginalRef(base, ref, o);
      c.0.Raised? ==> LookUp(action, base, ref, o) == Keep(Error, c.1)
    ensures var c := OriginalRef(base, ref, o);
      c.0.Returned? ==> LookUp(action, base, ref, o).queries == c.1 + [ShaLookup(action)]
    ensures var c := OriginalRef(base, ref, o);
      c.0.Returned? && o.sha(action).Returned? && Truthy(o.sha(action).value) ==>
        LookUp(action, base, ref, o) ==
          Pin(base, ref, o.sha(action).value.value, c.0.value, c.1 + [ShaLookup(action)])
  {
  }

  /** Without a SHA from the lookup (none, an empty one, or an exception), the
      occurrence is returned byte-identical, whatever the value. */
  lemma UnresolvedKept(prefix: string, action: string, o: Oracles)
    requires !(o.sha(action).Returned? && Truthy(o.sha(action).value))
    ensures Resolve(action, o).Keep?
    ensures ReplaceAction(prefix, action, o) == prefix + action
  {
  }

  /** The pinned text with its fixed pieces already joined. */
  lemma PinnedTextJoined(prefix: string, base: string, sha: string, comment: string,
                         baseAt: string, tail: string)
    requires baseAt == base + "@" && tail == " # " + comment
    ensures prefix + base + "@" + sha + " # " + comment == prefix + baseAt + sha + tail
  {
  }

  /** The versioned case of the test table: `actions/checkout@v3`, whose SHA
      is found, becomes `actions/checkout@<sha> # v3`. */
  lemma PinVersionedExample(prefix: string, o: Oracles)
    requires o.sha("actions/checkout@v3") == Returned(Some(ExampleSha))
    ensures ReplaceAction(prefix, "actions/checkout@v3", o) ==
      prefix + "actions/checkout@" + ExampleSha + " # v3"
  {
    assert "actions/checkout" + "@" + "v3" == "actions/checkout@v3";
    assert "actions/checkout@v3"[7] == '/';
    assert "actions/checkout" + "@" == "actions/checkout@";
    assert " # " + "v3" == " # v3";
    PinnedTextJoined(prefix, "actions/checkout", ExampleSha, "v3", "actions/checkout@", " # v3");
    TagRefPinned(prefix, "actions/checkout", "v3", ExampleSha, o);
  }

  /** The already-pinned case of the test table is kept, with no lookup. */
  lemma AlreadyPinnedExample(prefix: string, o: Oracles)
    ensures var action := "actions/checkout@" + ExampleSha;
      Resolve(action, o) == Keep(AlreadyPinned, []) &&
      ReplaceAction(prefix, action, o) == prefix + action
  {
    ExampleShaAccepted();
    assert "actions/checkout" + "@" + ExampleSha == "actions/checkout@" + ExampleSha;
    assert ("actions/checkout@" + ExampleSha)[7] == '/';
    ShaRefKept(prefix, "actions/checkout", ExampleSha, o);
  }

  /** The rewriter driven by the retriever's corrected lookup pins
      `actions/checkout@v3` when the commits request answers a SHA. The
      connection is hypothetical: `src/editor.py` imports a
      `get_latest_release_tag` that `src/retriever.py` does not define, so as the
      files stand the editor module cannot be imported at all. The latest-tag
      lookup stays an independent oracle here. */
  lemma CorrectedLookupPins(prefix: string, fetch: string -> Call<Option<string>>,
                            latestTag: (string, string) -> Call<Option<string>>)
    requires fetch(Retriever.CommitsUrl("actions", "checkout", "v3")) == Returned(Some(ExampleSha))
    ensures ReplaceAction(prefix, "actions/checkout@v3",
      Oracles(a => Retriever.GetActionSha(a, fetch), latestTag)) ==
      prefix + "actions/checkout@" + ExampleSha + " # v3"
  {
    var o := Oracles(a => Retriever.GetActionSha(a, fetch), latestTag);
    Retriever.ParseActionCheckout();
    assert Retriever.GetActionSha("actions/checkout@v3", fetch) == Returned(Some(ExampleSha));
    assert o.sha("actions/checkout@v3") == Returned(Some(ExampleSha));
    PinVersionedExample(prefix, o);
  }

  // ---------------------------------------------------------------------------
  // Whole content: `re.sub(pattern, replace_action, content)`

  /** A piece of scanned workflow text: plain text, or one `uses:` match. */
  datatype Segment = Text(text: string) | Uses(prefix: string, value: string)

  /** The text of one segment. */
  function SegmentText(seg: Segment): string
  {
    match seg
    case Text(t) => t
    case Uses(p, v) => p + v
  }

  /** The workflow text the segments were scanned from. */
  function Render(segs: seq<Segment>): string
  {
    if segs == [] then "" else SegmentText(segs[0]) + Render(segs[1..])
  }

  /** The values of the `uses:` matches, in order. */
  function Occurrences(segs: seq<Segment>): seq<string>
  {
    if segs == [] then []
    else (if segs[0].Uses? then [segs[0].value] else []) + Occurrences(segs[1..])
  }

  /** The text `re.sub` puts in place of one segment: a match is replaced by
      what the callback returns for its prefix group and value, other text is copied. */
  function Replaced(seg: Segment, replace: (string, string) -> string): string
  {
    match seg
    case Text(t) => t
    case Uses(p, v) => replace(p, v)
  }

  /** `re.sub` with a callback over the scanned text: every match is replaced,
      everything else is copied, and text without a match comes back unchanged. */
  function Substitute(segs: seq<Segment>, replace: (string, string) -> string): (content: string)
    ensures Occurrences(segs) == [] ==> content == Render(segs)
  {
    if segs == [] then ""
    else Replaced(segs[0], replace) + Substitute(segs[1..], replace)
  }

  /** Matches are replaced independently and in order: substituting in a
      concatenation is concatenating the substitutions. */
  lemma {:induction false} SubstituteAppend(a: seq<Segment>, b: seq<Segment>, replace: (string, string) -> string)
    ensures Substitute(a + b, replace) == Substitute(a, replace) + Substitute(b, replace)
    decreases |a|
  {
    if a == [] {
      assert a + b == b;
    } else {
      assert (a + b)[0] == a[0];
      assert (a + b)[1..] == a[1..] + b;
      SubstituteAppend(a[1..], b, replace);
    }
  }

  /** A callback that gives every match back as it found it leaves the text unchanged. */
  lemma {:induction false} SubstituteUnchanged(segs: seq<Segment>, replace: (string, string) -> string)
    requires forall i | 0 <= i < |segs| && segs[i].Uses? ::
      replace(segs[i].prefix, segs[i].value) == segs[i].prefix + segs[i].value
    ensures Substitute(segs, replace) == Render(segs)
    decreases |segs|
  {
    if segs != [] {
      assert forall i | 0 <= i < |segs[1..]| :: segs[1..][i] == segs[i + 1];
      SubstituteUnchanged(segs[1..], replace);
    }
  }

  /** `replace_action` for the lookups `o`, as the callback `re.sub` calls. */
  function ReplaceCallback(o: Oracles): (string, string) -> string
  {
    (prefix, action) => ReplaceAction(prefix, action, o)
  }

  /** `_pin_actions_in_workflow_content`: `re.sub` with `replace_action`. Content
      without a `uses:` match comes back unchanged. */
  function PinActionsInWorkflowContent(segs: seq<Segment>, o: Oracles): (content: string)
    ensures Occurrences(segs) == [] ==> content == Render(segs)
  {
    Substitute(segs, ReplaceCallback(o))
  }

  /** Occurrences are pinned independently and in order. */
  lemma PinAppend(a: seq<Segment>, b: seq<Segment>, o: Oracles)
    ensures PinActionsInWorkflowContent(a + b, o) ==
      PinActionsInWorkflowContent(a, o) + PinActionsInWorkflowContent(b, o)
  {
    SubstituteAppend(a, b, ReplaceCallback(o));
  }

  /** Driven by the retriever's lookup as written, which never yields a SHA,
      the rewriter pins nothing: every workflow comes back unchanged. The
      connection is hypothetical, as for `CorrectedLookupPins`: the editor's
      import of `get_latest_release_tag` fails with the retriever as it stands. */
  lemma AsWrittenLookupPinsNothing(segs: seq<Segment>, fetch: string -> Call<Option<string>>,
                                   latestTag: (string, string) -> Call<Option<string>>)
    ensures PinActionsInWorkflowContent(segs, Oracles(a => Retriever.GetActionShaAsWritten(a, fetch), latestTag)) ==
      Render(segs)
  {
    var o := Oracles(a => Retriever.GetActionShaAsWritten(a, fetch), latestTag);
    forall i | 0 <= i < |segs| && segs[i].Uses?
      ensures ReplaceCallback(o)(segs[i].prefix, segs[i].value) == segs[i].prefix + segs[i].value
    {
      Retriever.AsWrittenDropsSha(segs[i].value, fetch);
      UnresolvedKept(segs[i].prefix, segs[i].value, o);
    }
    SubstituteUnchanged(segs, ReplaceCallback(o));
  }

  // ---------------------------------------------------------------------------
  // The rewritten text in scanned form

  /** Rewrites every segment and joins the results, in order. */
  function MapSegments(segs: seq<Segment>, rewrite: Segment -> seq<Segment>): seq<Segment>
  {
    if segs == [] then [] else rewrite(segs[0]) + MapSegments(segs[1..], rewrite)
  }

  lemma {:induction false} MapSegmentsAppend(a: seq<Segment>, b: seq<Segment>, rewrite: Segment -> seq<Segment>)
    ensures MapSegments(a + b, rewrite) == MapSegments(a, rewrite) + MapSegments(b, rewrite)
    decreases |a|
  {
    if a == [] {
      assert a + b == b;
    } else {
      assert (a + b)[0] == a[0];
      assert (a + b)[1..] == a[1..] + b;
      MapSegmentsAppend(a[1..], b, rewrite);
    }
  }

  lemma {:induction false} RenderAppend(a: seq<Segment>, b: seq<Segment>)
    ensures Render(a + b) == Render(a) + Render(b)
    decreases |a|
  {
    if a == [] {
      assert a + b == b;
    } else {
      assert (a + b)[0] == a[0];
      assert (a + b)[1..] == a[1..] + b;
      RenderAppend(a[1..], b);
    }
  }

  /** A segment rewrite that renders to the callback's replacement renders,
      over the whole text, to the substitution. */
  lemma {:induction false} RenderMapSegments(segs: seq<Segment>, rewrite: Segment -> seq<Segment>,
                                             replace: (string, string) -> string)
    requires forall seg :: Render(rewrite(seg)) == Replaced(seg, replace)
    ensures Render(MapSegments(segs, rewrite)) == Substitute(segs, replace)
    decreases |segs|
  {
    if segs != [] {
      RenderAppend(rewrite(segs[0]), MapSegments(segs[1..], rewrite));
      RenderMapSegments(segs[1..], rewrite, replace);
    }
  }

  /** A rewrite that leaves each of the segments alone leaves them all alone. */
  lemma {:induction false} MapSegmentsFixed(segs: seq<Segment>, rewrite: Segment -> seq<Segment>)
    requires forall i | 0 <= i < |segs| :: rewrite(segs[i]) == [segs[i]]
    ensures MapSegments(segs, rewrite) == segs
    decreases |segs|
  {
    if segs != [] {
      assert forall i | 0 <= i < |segs[1..]| :: segs[1..][i] == segs[i + 1];
      MapSegmentsFixed(segs[1..], rewrite);
      assert segs == [segs[0]] + segs[1..];
    }
  }

  /** A rewrite whose every output is left alone by a second rewrite is idempotent. */
  lemma {:induction false} MapSegmentsIdempotent(segs: seq<Segment>, rewrite: Segment -> seq<Segment>)
    requires forall seg :: MapSegments(rewrite(seg), rewrite) == rewrite(seg)
    ensures MapSegments(MapSegments(segs, rewrite), rewrite) == MapSegments(segs, rewrite)
    decreases |segs|
  {
    if segs != [] {
      MapSegmentsAppend(rewrite(segs[0]), MapSegments(segs[1..], rewrite), rewrite);
      MapSegmentsIdempotent(segs[1..], rewrite);
    }
  }

  /** The scanned form of the rewritten occurrence: a pinned one becomes the
      match `prefix base@sha` followed by the comment text ` # comment`. */
  function RewriteSegment(seg: Segment, o: Oracles): (out: seq<Segment>)
    ensures out == [seg] <==> !(seg.Uses? && Resolve(seg.value, o).Pin?)
    ensures out != [seg] ==> |out| == 2 && out[0].Uses? && out[0].prefix == seg.prefix && out[1].Text?
  {
    if seg.Uses? && Resolve(seg.value, o).Pin? then
      var r := Resolve(seg.value, o);
      [Uses(seg.prefix, r.base + "@" + r.sha), Text(" # " + r.comment)]
    else [seg]
  }

  function RewriteCallback(o: Oracles): Segment -> seq<Segment>
  {
    seg => RewriteSegment(seg, o)
  }

  /** The scanned form of the rewritten content. */
  function Rewritten(segs: seq<Segment>, o: Oracles): seq<Segment>
  {
    MapSegments(segs, RewriteCallback(o))
  }

  /** The two segments of a pinned occurrence render to the pinned text. */
  lemma RenderPinnedSegments(prefix: string, base: string, sha: string, comment: string)
    ensures Render([Uses(prefix, base + "@" + sha), Text(" # " + comment)]) ==
      prefix + base + "@" + sha + " # " + comment
  {
    var segs := [Uses(prefix, base + "@" + sha), Text(" # " + comment)];
    assert segs[1..][1..] == [];
    assert Render(segs[1..]) == " # " + comment + "";
    assert Render(segs) == prefix + (base + "@" + sha) + (" # " + comment);
  }

  /** One rewritten segment renders to the text `re.sub` puts in its place. */
  lemma RenderRewriteSegment(seg: Segment, o: Oracles)
    ensures Render(RewriteSegment(seg, o)) == Replaced(seg, ReplaceCallback(o))
  {
    var r := if seg.Uses? then Resolve(seg.value, o) else Keep(Skipped, []);
    if seg.Uses? {
      assert Replaced(seg, ReplaceCallback(o)) == ReplaceAction(seg.prefix, seg.value, o);
    }
    if seg.Uses? && r.Pin? {
      assert RewriteSegment(seg, o) == [Uses(seg.prefix, r.base + "@" + r.sha), Text(" # " + r.comment)];
      RenderPinnedSegments(seg.prefix, r.base, r.sha, r.comment);
    } else {
      assert RewriteSegment(seg, o) == [seg];
      assert Render([seg]) == SegmentText(seg) + "";
    }
  }

  /** The scanned form renders to exactly the text the rewrite produces. */
  lemma RenderRewritten(segs: seq<Segment>, o: Oracles)
    ensures Render(Rewritten(segs, o)) == PinActionsInWorkflowContent(segs, o)
  {
    forall seg ensures Render(RewriteCallback(o)(seg)) == Replaced(seg, ReplaceCallback(o)) {
      RenderRewriteSegment(seg, o);
    }
    RenderMapSegments(segs, RewriteCallback(o), ReplaceCallback(o));
  }

  /** The lookup answers only SHAs (or nothing). */
  ghost predicate ShaLookupGivesShas(o: Oracles)
  {
    forall a :: o.sha(a).Returned? && Truthy(o.sha(a).value) ==> IsShaReference(o.sha(a).value.value)
  }

  /** A value already pinned to a SHA is not rewritten again. */
  lemma PinnedSegmentKept(prefix: string, base: string, sha: string, o: Oracles)
    requires IsShaReference(sha)
    ensures RewriteSegment(Uses(prefix, base + "@" + sha), o) == [Uses(prefix, base + "@" + sha)]
  {
    ShaRefKept(prefix, base, sha, o);
  }

  /** A rewritten occurrence is left alone by a second pass with the same lookups:
      its value now ends in a SHA after its last `@`. */
  lemma RewriteSegmentStable(seg: Segment, o: Oracles)
    requires ShaLookupGivesShas(o)
    ensures MapSegments(RewriteSegment(seg, o), RewriteCallback(o)) == RewriteSegment(seg, o)
  {
    var segs := RewriteSegment(seg, o);
    if seg.Uses? && Resolve(seg.value, o).Pin? {
      var r := Resolve(seg.value, o);
      PinnedSegmentKept(seg.prefix, r.base, r.sha, o);
      assert RewriteCallback(o)(segs[0]) == [segs[0]];
      assert RewriteCallback(o)(segs[1]) == [segs[1]];
    } else {
      assert RewriteCallback(o)(segs[0]) == [segs[0]];
    }
    MapSegmentsFixed(segs, RewriteCallback(o));
  }

  /** A pinned occurrence stays pinned under any second-pass lookups: its value
      now ends in a SHA, which is kept without a lookup. */
  lemma PinnedStableUnderAnyLookups(seg: Segment, o: Oracles, o2: Oracles)
    requires ShaLookupGivesShas(o) && seg.Uses? && Resolve(seg.value, o).Pin?
    ensures MapSegments(RewriteSegment(seg, o), RewriteCallback(o2)) == RewriteSegment(seg, o)
  {
    var r := Resolve(seg.value, o);
    assert o.sha(seg.value) == Returned(Some(r.sha)) && Truthy(Some(r.sha));
    PinnedPairKept(seg.prefix, r.base, r.sha, r.comment, o2);
  }

  /** The two segments of a pinned occurrence are left alone by any rewrite pass. */
  lemma PinnedPairKept(prefix: string, base: string, sha: string, comment: string, o: Oracles)
    requires IsShaReference(sha)
    ensures var segs := [Uses(prefix, base + "@" + sha), Text(" # " + comment)];
      MapSegments(segs, RewriteCallback(o)) == segs
  {
    var pinned := Uses(prefix, base + "@" + sha);
    var text := Text(" # " + comment);
    PinnedSegmentKept(prefix, base, sha, o);
    assert RewriteSegment(text, o) == [text];
    MapPairFixed(pinned, text, RewriteCallback(o));
  }

  /** A rewrite that leaves two segments alone leaves the pair of them alone. */
  lemma MapPairFixed(a: Segment, b: Segment, rewrite: Segment -> seq<Segment>)
    requires rewrite(a) == [a] && rewrite(b) == [b]
    ensures MapSegments([a, b], rewrite) == [a, b]
  {
    assert [a, b][1..] == [b];
    assert [b][1..] == [];
    assert MapSegments([b], rewrite) == [b] + MapSegments([], rewrite);
    assert MapSegments([a, b], rewrite) == [a] + MapSegments([b], rewrite);
  }

  /** Idempotence: rewriting the rewritten content again, with lookups that give
      the same answers, changes nothing. */
  lemma RewrittenIdempotent(segs: seq<Segment>, o: Oracles)
    requires ShaLookupGivesShas(o)
    ensures Rewritten(Rewritten(segs, o), o) == Rewritten(segs, o)
  {
    forall seg ensures MapSegments(RewriteCallback(o)(seg), RewriteCallback(o)) == RewriteCallback(o)(seg) {
      RewriteSegmentStable(seg, o);
    }
    MapSegmentsIdempotent(segs, RewriteCallback(o));
  }

  /** A second pass over the pinned content, with lookups that give the same
      answers, returns it unchanged. */
  lemma SecondPassUnchanged(segs: seq<Segment>, o: Oracles)
    requires ShaLookupGivesShas(o)
    ensures PinActionsInWorkflowContent(Rewritten(segs, o), o) == PinActionsInWorkflowContent(segs, o)
  {
    RenderRewritten(Rewritten(segs, o), o);
    RewrittenIdempotent(segs, o);
    RenderRewritten(segs, o);
  }

  // ---------------------------------------------------------------------------
  // The scanned form is what the `uses:` pattern would see

  /** A value the pattern's `\S+` group can match: non-empty, without blanks. */
  predicate IsToken(v: string)
  {
    v != [] && forall i | 0 <= i < |v| :: !IsSpace(v[i])
  }

  /** The segment's text begins with a blank. */
  predicate LeadsWithSpace(seg: Segment)
  {
    match seg
    case Text(t) => t != [] && IsSpace(t[0])
    case Uses(p, _) => p != [] && IsSpace(p[0])
  }

  /** A match as the `\s+uses:\s+\S+` pattern delimits it: a blank-led prefix and a token value. */
  predicate WellFormedMatch(seg: Segment)
  {
    seg.Uses? ==> LeadsWithSpace(seg) && IsToken(seg.value)
  }

  /** Every match is well formed and ends where a blank (or the end of the
      text) stops the greedy `\S+`. */
  ghost predicate Tokenised(segs: seq<Segment>)
  {
    forall i | 0 <= i < |segs| && segs[i].Uses? ::
      && WellFormedMatch(segs[i])
      && (i + 1 < |segs| ==> LeadsWithSpace(segs[i + 1]))
  }

  /** The matches of a tail of a scanned text are still well delimited. */
  lemma TokenisedTail(segs: seq<Segment>)
    requires segs != [] && Tokenised(segs)
    ensures Tokenised(segs[1..])
  {
    var tail := segs[1..];
    forall i | 0 <= i < |tail| && tail[i].Uses?
      ensures WellFormedMatch(tail[i])
      ensures i + 1 < |tail| ==> LeadsWithSpace(tail[i + 1])
    {
      assert tail[i] == segs[i + 1];
      assert i + 1 < |tail| ==> tail[i + 1] == segs[i + 2];
    }
  }

  /** Two well delimited texts stay so when joined, provided a match that ends
      the first is followed by a blank. */
  lemma TokenisedAppend(a: seq<Segment>, b: seq<Segment>)
    requires Tokenised(a) && Tokenised(b)
    requires a != [] && a[|a| - 1].Uses? && b != [] ==> LeadsWithSpace(b[0])
    ensures Tokenised(a + b)
  {
    var all := a + b;
    forall i | 0 <= i < |all| && all[i].Uses?
      ensures WellFormedMatch(all[i])
      ensures i + 1 < |all| ==> LeadsWithSpace(all[i + 1])
    {
      if i < |a| {
        assert all[i] == a[i];
        if i + 1 < |a| {
          assert all[i + 1] == a[i + 1];
        } else if i + 1 < |all| {
          assert all[i + 1] == b[0];
        }
      } else {
        assert all[i] == b[i - |a|];
        assert i + 1 < |all| ==> all[i + 1] == b[i + 1 - |a|];
      }
    }
  }

  /** The rewrite of one segment keeps the shape a scan sees: the output is
      well delimited, begins as the segment did, and ends in a match only when
      it is the segment itself. */
  ghost predicate KeepsShape(seg: Segment, out: seq<Segment>)
  {
    && out != []
    && LeadsWithSpace(out[0]) == LeadsWithSpace(seg)
    && Tokenised(out)
    && (out[|out| - 1].Uses? ==> out == [seg])
  }

  /** A segment rewrite that keeps the shape of every well-formed segment keeps
      a well delimited text well delimited. */
  lemma {:induction false} MapSegmentsTokenised(segs: seq<Segment>, rewrite: Segment -> seq<Segment>)
    requires Tokenised(segs)
    requires forall seg | WellFormedMatch(seg) :: KeepsShape(seg, rewrite(seg))
    ensures Tokenised(MapSegments(segs, rewrite))
    ensures segs != [] ==> (MapSegments(segs, rewrite) != [] &&
      LeadsWithSpace(MapSegments(segs, rewrite)[0]) == LeadsWithSpace(segs[0]))
    decreases |segs|
  {
    if segs != [] {
      var head, tail := rewrite(segs[0]), MapSegments(segs[1..], rewrite);
      assert WellFormedMatch(segs[0]);
      TokenisedTail(segs);
      MapSegmentsTokenised(segs[1..], rewrite);
      if |segs| > 1 {
        assert segs[1..][0] == segs[1];
      }
      TokenisedAppend(head, tail);
      assert (head + tail)[0] == head[0];
    }
  }

  /** Rewriting one well-formed segment keeps it well delimited: the new value
      `base@sha` is still one token and the comment after it begins with a
      blank. (This does not say that a scan of the rendered text finds only these
      matches: a comment may itself hold text the pattern matches.) */
  lemma RewriteSegmentTokenised(seg: Segment, o: Oracles)
    requires ShaLookupGivesShas(o) && WellFormedMatch(seg)
    ensures KeepsShape(seg, RewriteSegment(seg, o))
  {
    if seg.Uses? && Resolve(seg.value, o).Pin? {
      var r := Resolve(seg.value, o);
      PinnedValueIsToken(r.base, r.ref, r.sha);
      assert RewriteSegment(seg, o) == [Uses(seg.prefix, r.base + "@" + r.sha), Text(" # " + r.comment)];
      PinnedPairTokenised(seg.prefix, r.base + "@" + r.sha, r.comment);
    } else {
      assert RewriteSegment(seg, o) == [seg];
    }
  }

  /** A match followed by its comment text is well delimited: the comment
      starts with a blank. */
  lemma PinnedPairTokenised(prefix: string, value: string, comment: string)
    requires WellFormedMatch(Uses(prefix, value))
    ensures KeepsShape(Uses(prefix, value), [Uses(prefix, value), Text(" # " + comment)])
  {
    var out := [Uses(prefix, value), Text(" # " + comment)];
    assert LeadsWithSpace(out[1]);
  }

  /** Replacing the ref of a token by a SHA leaves a token. */
  lemma PinnedValueIsToken(base: string, ref: string, sha: string)
    requires IsToken(base + "@" + ref) && IsShaReference(sha)
    ensures IsToken(base + "@" + sha)
  {
    var v, nv := base + "@" + ref, base + "@" + sha;
    ShaHasNoSeparator(sha);
    forall j | 0 <= j < |nv| ensures !IsSpace(nv[j]) {
      if j <= |base| {
        assert nv[j] == v[j];
      } else {
        assert nv[j] == sha[j - |base| - 1];
      }
    }
  }

  /** Rewriting a scanned text keeps every match well delimited. */
  lemma RewrittenTokenised(segs: seq<Segment>, o: Oracles)
    requires ShaLookupGivesShas(o) && Tokenised(segs)
    ensures Tokenised(Rewritten(segs, o))
  {
    forall seg | WellFormedMatch(seg) ensures KeepsShape(seg, RewriteCallback(o)(seg)) {
      RewriteSegmentTokenised(seg, o);
    }
    MapSegmentsTokenised(segs, RewriteCallback(o));
  }

  // ---------------------------------------------------------------------------
  // Files: `pin_action_in_file`

  /** Why a file was or was not rewritten, as the message printed for it. */
  datatype FileOutcome = FileNotFound | NotWorkflowFile | Pinned

  /** The files on disk, each held in scanned form. */
  class Workspace {
    var files: map<string, seq<Segment>>

    constructor (initial: map<string, seq<Segment>>)
      ensures files == initial
    {
      files := initial;
    }

    /** `pin_action_in_file`: a missing path or a name that is not a workflow
        file leaves every file alone; otherwise the file is read, pinned and
        overwritten in place, and no other file changes. */
    method PinActionInFile(path: string, o: Oracles) returns (outcome: FileOutcome)
      modifies this
      ensures path !in old(files) ==> outcome == FileNotFound && files == old(files)
      ensures path in old(files) && !IsGithubWorkflowFile(path) ==>
        outcome == NotWorkflowFile && files == old(files)
      ensures path in old(files) && IsGithubWorkflowFile(path) ==>
        outcome == Pinned && files == old(files)[path := Rewritten(old(files)[path], o)]
      ensures outcome == Pinned ==> Render(files[path]) == PinActionsInWorkflowContent(old(files)[path], o)
    {
      if path !in files {
        return FileNotFound;
      }
      if !IsGithubWorkflowFile(path) {
        return NotWorkflowFile;
      }
      var content := files[path];
      var updated := Rewritten(content, o);
      RenderRewritten(content, o);
      files := files[path := updated];
      return Pinned;
    }
  }

  /** Pinning a file twice, with lookups that give the same answers, leaves it
      as the first pass did. */
  method PinFileTwice(w: Workspace, path: string, o: Oracles)
    requires ShaLookupGivesShas(o)
    modifies w
    ensures w.files == if path in old(w.files) && IsGithubWorkflowFile(path)
      then old(w.files)[path := Rewritten(old(w.files)[path], o)] else old(w.files)
  {
    var first := w.PinActionInFile(path, o);
    var second := w.PinActionInFile(path, o);
    if first == Pinned {
      RewrittenIdempotent(old(w.files)[path], o);
    }
  }
}
