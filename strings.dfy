/** The handful of Python `str` operations the pinning pipeline relies on:
    `in`, `split`, `rsplit(sep, 1)`, `lower()` and `endswith`. */
module Strings {
  import opened Wrappers

  /** Index of the first `c` in `s`, or -1 when there is none. */
  function FirstIndex(s: string, c: char): (k: int)
    ensures -1 <= k < |s|
    ensures k == -1 <==> c !in s
    ensures k >= 0 ==> s[k] == c && c !in s[..k]
  {
    if s == [] then -1
    else if s[0] == c then 0
    else
      var k := FirstIndex(s[1..], c);
      if k < 0 then -1
      else
        assert s[..k + 1] == [s[0]] + s[1..][..k];
        k + 1
  }

  /** Index of the last `c` in `s`, or -1 when there is none. */
  function LastIndex(s: string, c: char): (k: int)
    ensures -1 <= k < |s|
    ensures k == -1 <==> c !in s
    ensures k >= 0 ==> s[k] == c && c !in s[k + 1..]
  {
    if s == [] then -1
    else
      var k := LastIndex(s[1..], c);
      if k >= 0 then k + 1
      else if s[0] == c then 0
      else
        assert s == [s[0]] + s[1..];
        -1
  }

  /** The first `c` of `a + [c] + b` is at `|a|` when `a` holds no `c`. */
  lemma FirstIndexAt(a: string, c: char, b: string)
    requires c !in a
    ensures FirstIndex(a + [c] + b, c) == |a|
  {
    var s := a + [c] + b;
    assert s[|a|] == c;
  }

  /** The last `c` of `a + [c] + b` is at `|a|` when `b` holds no `c`. */
  lemma LastIndexAt(a: string, c: char, b: string)
    requires c !in b
    ensures LastIndex(a + [c] + b, c) == |a|
  {
    var s := a + [c] + b;
    assert s[|a|] == c;
  }

  /** Python's `s.rsplit(c, 1)` when `c` occurs in `s`: the text before and after the last `c`. */
  function SplitLast(s: string, c: char): (r: Option<(string, string)>)
    ensures r.None? <==> c !in s
    ensures r.Some? ==> s == r.value.0 + [c] + r.value.1 && c !in r.value.1
  {
    var k := LastIndex(s, c);
    if k < 0 then None
    else
      assert s == s[..k] + [c] + s[k + 1..];
      Some((s[..k], s[k + 1..]))
  }

  /** The cut at the first `c` of `s`, when there is one: the text before and
      after it. The groups `([^/]+)/` and `([^@]+)@` of the action pattern end at
      the first `/` and the first `@` after it, and `split("@")[0]` keeps the text
      before the first `@`. */
  function SplitFirst(s: string, c: char): (r: Option<(string, string)>)
    ensures r.None? <==> c !in s
    ensures r.Some? ==> s == r.value.0 + [c] + r.value.1 && c !in r.value.0
  {
    var k := FirstIndex(s, c);
    if k < 0 then None
    else
      assert s == s[..k] + [c] + s[k + 1..];
      Some((s[..k], s[k + 1..]))
  }

  /** Splitting at the first `c` undoes joining at a `c` the left-hand side lacks. */
  lemma SplitFirstOfJoin(a: string, c: char, b: string)
    requires c !in a
    ensures SplitFirst(a + [c] + b, c) == Some((a, b))
  {
    FirstIndexAt(a, c, b);
    var s := a + [c] + b;
    assert s[..|a|] == a;
    assert s[|a| + 1..] == b;
  }

  /** The first line of `s` and what follows it, which is empty or starts with the line break. */
  function FirstLine(s: string): (r: (string, string))
    ensures s == r.0 + r.1 && '\n' !in r.0
    ensures r.1 == [] || r.1[0] == '\n'
  {
    var k := FirstIndex(s, '\n');
    if k < 0 then (s, [])
    else
      assert s == s[..k] + s[k..];
      (s[..k], s[k..])
  }

  /** A line break ends the first line. */
  lemma FirstLineOfJoin(line: string, more: string)
    requires '\n' !in line && (more == [] || more[0] == '\n')
    ensures FirstLine(line + more) == (line, more)
  {
    if more == [] {
      assert line + more == line;
    } else {
      FirstIndexAt(line, '\n', more[1..]);
      assert line + more == line + ['\n'] + more[1..];
      assert (line + more)[..|line|] == line;
      assert (line + more)[|line|..] == more;
    }
  }

  /** Splitting at the last `c` undoes joining at a `c` the right-hand side lacks. */
  lemma SplitLastOfJoin(a: string, c: char, b: string)
    requires c !in b
    ensures SplitLast(a + [c] + b, c) == Some((a, b))
  {
    LastIndexAt(a, c, b);
    var s := a + [c] + b;
    assert s[..|a|] == a;
    assert s[|a| + 1..] == b;
  }

  /** The inverse of `Split`: the parts glued back together with `sep`. */
  function Join(parts: seq<string>, sep: char): string
  {
    if parts == [] then ""
    else if |parts| == 1 then parts[0]
    else parts[0] + [sep] + Join(parts[1..], sep)
  }

  /** Python's `s.split(sep)`: at least one part, no part holds `sep`, and
      there are two parts or more exactly when `sep` occurs in `s`. */
  function Split(s: string, sep: char): (parts: seq<string>)
    ensures |parts| >= 1
    ensures forall i :: 0 <= i < |parts| ==> sep !in parts[i]
    ensures |parts| >= 2 <==> sep in s
    decreases |s|
  {
    var k := FirstIndex(s, sep);
    if k < 0 then [s]
    else
      var rest := Split(s[k + 1..], sep);
      assert s == s[..k] + [sep] + s[k + 1..];
      [s[..k]] + rest
  }

  /** Joining the parts of a split with the separator gives back the string. */
  lemma {:induction false} JoinSplit(s: string, sep: char)
    ensures Join(Split(s, sep), sep) == s
    decreases |s|
  {
    var k := FirstIndex(s, sep);
    if k >= 0 {
      JoinSplit(s[k + 1..], sep);
      assert s == s[..k] + [sep] + s[k + 1..];
    }
  }

  /** Splitting `a + [sep] + b` where `a` holds no `sep` peels `a` off first. */
  lemma {:induction false} SplitCons(a: string, sep: char, b: string)
    requires sep !in a
    ensures Split(a + [sep] + b, sep) == [a] + Split(b, sep)
  {
    var s := a + [sep] + b;
    FirstIndexAt(a, sep, b);
    assert s[..|a|] == a;
    assert s[|a| + 1..] == b;
  }

  /** Whatever precedes the last two `sep`-free segments, `split` ends with them. */
  lemma {:induction false} SplitEndsWith(path: string, owner: string, repo: string, sep: char)
    requires sep !in owner && sep !in repo
    requires path == [] || path[|path| - 1] == sep
    ensures EndsWithPair(Split(path + (owner + [sep] + repo), sep), owner, repo)
    decreases |path|
  {
    var rest := owner + [sep] + repo;
    if path == [] {
      assert path + rest == rest;
      SplitCons(owner, sep, repo);
      assert Split(repo, sep) == [repo];
      assert Split(path + rest, sep) == [owner, repo];
    } else {
      var head, tail := SplitFirstOf(path, sep);
      var later := tail + rest;
      assert path + rest == head + [sep] + later;
      SplitCons(head, sep, later);
      SplitEndsWith(tail, owner, repo, sep);
      LastTwoOfCons(head, Split(later, sep), owner, repo);
    }
  }

  /** A string that ends in `sep` splits at its first `sep` into a `sep`-free
      head and a tail that is empty or again ends in `sep`. */
  lemma SplitFirstOf(path: string, sep: char) returns (head: string, tail: string)
    requires path != [] && path[|path| - 1] == sep
    ensures path == head + [sep] + tail && sep !in head && |tail| < |path|
    ensures tail == [] || tail[|tail| - 1] == sep
  {
    var k := FirstIndex(path, sep);
    head, tail := path[..k], path[k + 1..];
    assert path == head + [sep] + tail;
  }

  /** The last two elements of `parts` are `a` and `b`. */
  predicate EndsWithPair(parts: seq<string>, a: string, b: string)
  {
    |parts| >= 2 && parts[|parts| - 2] == a && parts[|parts| - 1] == b
  }

  lemma LastTwoOfCons(head: string, inner: seq<string>, a: string, b: string)
    requires EndsWithPair(inner, a, b)
    ensures EndsWithPair([head] + inner, a, b)
  {
    var parts := [head] + inner;
    assert parts[|parts| - 2] == inner[|inner| - 2];
    assert parts[|parts| - 1] == inner[|inner| - 1];
  }

  /** Python's `str.lower()` on one character, for the ASCII letters: an
      upper-case letter becomes the lower-case letter at the same place in the
      alphabet, and every other character is kept. */
  function LowerChar(c: char): (d: char)
    ensures 'A' <= c <= 'Z' ==> 'a' <= d <= 'z' && d as int - 'a' as int == c as int - 'A' as int
    ensures !('A' <= c <= 'Z') ==> d == c
  {
    if 'A' <= c <= 'Z' then (c as int - 'A' as int + 'a' as int) as char else c
  }

  /** Python's `str.lower()`, character by character. */
  function Lower(s: string): (r: string)
    ensures |r| == |s|
  {
    seq(|s|, i requires 0 <= i < |s| => LowerChar(s[i]))
  }

  /** Lower-casing leaves no upper-case ASCII letter, keeps every other
      character, and turns each upper-case letter into a lower-case one. */
  lemma LowerSpec(s: string)
    ensures forall i | 0 <= i < |s| :: !('A' <= Lower(s)[i] <= 'Z')
    ensures forall i | 0 <= i < |s| :: !('A' <= s[i] <= 'Z') ==> Lower(s)[i] == s[i]
    ensures forall i | 0 <= i < |s| :: 'A' <= s[i] <= 'Z' ==> 'a' <= Lower(s)[i] <= 'z'
  {
  }

  /** Lower-casing twice is lower-casing once. */
  lemma LowerIdempotent(s: string)
    ensures Lower(Lower(s)) == Lower(s)
  {
  }

  /** Lower-casing commutes with concatenation. */
  lemma LowerAppend(a: string, b: string)
    ensures Lower(a + b) == Lower(a) + Lower(b)
  {
  }

  /** Python's `s.endswith(suffix)`. */
  predicate EndsWith(s: string, suffix: string)
  {
    |suffix| <= |s| && s[|s| - |suffix|..] == suffix
  }

  /** Every string ends with what was appended to it. */
  lemma EndsWithAppend(stem: string, suffix: string)
    ensures EndsWith(stem + suffix, suffix)
  {
    assert (stem + suffix)[|stem|..] == suffix;
  }

  /** A string that ends with `suffix` is some stem followed by `suffix`. */
  lemma EndsWithStem(s: string, suffix: string)
    requires EndsWith(s, suffix)
    ensures s == s[..|s| - |suffix|] + suffix
  {
  }

  /** The characters Python's `\s` matches in a `str` pattern without
      `re.ASCII`: those for which `str.isspace()` holds. Besides the blank and
      `\t` to `\r` these are the separators U+1C to U+1F, U+85, U+A0, U+1680,
      U+2000 to U+200A, U+2028, U+2029, U+202F, U+205F and U+3000. */
  predicate IsSpace(c: char)
  {
    || c == ' ' || '\t' <= c <= '\r' || '\U{1C}' <= c <= '\U{1F}'
    || c == '\U{85}' || c == '\U{A0}' || c == '\U{1680}' || '\U{2000}' <= c <= '\U{200A}'
    || c == '\U{2028}' || c == '\U{2029}' || c == '\U{202F}' || c == '\U{205F}' || c == '\U{3000}'
  }
}
