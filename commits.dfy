/** Commit classification and the one-line rendering of a commit
    (lib/changelog.js, lines 13-26 and 41-56). The regular expressions of the
    source become explicit predicates over `seq<char>`; the list of known
    commit types is a parameter. */
module Commits {
  import opened Text

  /** One history entry as the version-control collaborator reports it:
      the full hash and the first line of the message. */
  datatype Commit = Commit(hash: string, message: string)

  /** The keys of the `conventional-commit-types` package, in its order; the
      engine takes its list of known types as a parameter, and this is the
      value the released tool passes. */
  const ConventionalTypes: seq<string> :=
    ["feat", "fix", "docs", "style", "refactor", "perf", "test", "build", "ci", "chore", "revert"]

  /** No key of `conventional-commit-types` holds a colon, so the type that
      opens a message is the one matched, whatever the list order. */
  lemma ConventionalTypesHaveNoColon()
    ensures forall u :: u in ConventionalTypes ==> ':' !in u
  {
  }

  // ---------------------------------------------------------------------
  // Classifier
  // ---------------------------------------------------------------------

  /** The blacklisted message openings. The source writes them as
      "Merge pull request", "Merge remote-tracking branch" and "release: v"
      under a case-insensitive flag and tests the lower-cased message, so
      comparing lower-case forms is the same test. */
  const MergePullRequest := "merge pull request"
  const MergeRemoteBranch := "merge remote-tracking branch"
  const ReleasePrefix := "release: v"

  /** A merge or release commit, which the changelog leaves out. */
  predicate IsExcluded(message: string) {
    var lower := LowerAscii(message);
    MergePullRequest <= lower || MergeRemoteBranch <= lower || ReleasePrefix <= lower
  }

  /** A commit that signals a minor release: the message starts with `feat:`,
      case-sensitively, and no scope is recognised. */
  predicate IsFeature(message: string) {
    "feat:" <= message
  }

  /** The commits that appear in the changelog, in history order. */
  function Included(commits: seq<Commit>): (r: seq<Commit>)
    ensures |r| <= |commits|
    ensures forall c :: c in r ==> c in commits && !IsExcluded(c.message)
    ensures forall c :: c in commits && !IsExcluded(c.message) ==> c in r
  {
    if commits == [] then []
    else if IsExcluded(commits[0].message) then Included(commits[1..])
    else [commits[0]] + Included(commits[1..])
  }

  /** Filtering distributes over concatenation, so the relative order of the
      commits that survive is the order of the history. */
  lemma {:induction false} IncludedAppend(a: seq<Commit>, b: seq<Commit>)
    ensures Included(a + b) == Included(a) + Included(b)
  {
    if a != [] {
      var ab := a + b;
      assert ab[0] == a[0] && ab[1..] == a[1..] + b;
      IncludedAppend(a[1..], b);
      if IsExcluded(a[0].message) {
        assert Included(ab) == Included(a[1..] + b);
      } else {
        assert Included(ab) == [a[0]] + Included(a[1..] + b);
      }
    } else {
      assert a + b == b;
    }
  }

  /** Filtering twice removes nothing more. */
  lemma {:induction false} IncludedIdempotent(commits: seq<Commit>)
    ensures Included(Included(commits)) == Included(commits)
  {
    if commits != [] {
      IncludedIdempotent(commits[1..]);
      if !IsExcluded(commits[0].message) {
        var rest := Included(commits[1..]);
        assert ([commits[0]] + rest)[0] == commits[0];
        assert ([commits[0]] + rest)[1..] == rest;
      }
    }
  }

  /** The tool's own release commit, `release: v<version>`, never reaches
      the changelog, whatever the version text is. */
  lemma ReleaseCommitExcluded(version: string)
    ensures IsExcluded(ReleasePrefix + version)
  {
    var lower := LowerAscii(ReleasePrefix + version);
    assert lower[..|ReleasePrefix|] == ReleasePrefix;
  }

  /** The blacklist test is case-insensitive: a message and its lower-case
      form are excluded alike. */
  lemma ExcludedIgnoresCase(message: string)
    ensures IsExcluded(LowerAscii(message)) <==> IsExcluded(message)
  {
    LowerAsciiIdempotent(message);
  }

  /** A message whose opening lower-cases to a blacklisted prefix is
      excluded. */
  lemma ExcludedByOpening(opening: string, rest: string)
    requires LowerAscii(opening) == MergePullRequest || LowerAscii(opening) == MergeRemoteBranch
             || LowerAscii(opening) == ReleasePrefix
    ensures IsExcluded(opening + rest)
  {
    LowerAsciiAppend(opening, rest);
  }

  /** A feature commit is never blacklisted, so it always reaches the release
      kind decision. */
  lemma FeatureIncluded(message: string)
    requires IsFeature(message)
    ensures !IsExcluded(message)
  {
    var lower := LowerAscii(message);
    assert lower[0] == 'f';
  }

  // ---------------------------------------------------------------------
  // Formatter
  // ---------------------------------------------------------------------

  /** The first known type `t`, in list order, such that the message starts
      with `t:` (the alternation `^(t1|t2|...):`). */
  function MatchedType(types: seq<string>, message: string): (r: Option<string>)
    ensures r.Some? ==> r.value in types && r.value + ":" <= message
    ensures r.None? ==> forall t :: t in types ==> !(t + ":" <= message)
  {
    if types == [] then None
    else if types[0] + ":" <= message then Some(types[0])
    else MatchedType(types[1..], message)
  }

  /** Two `type:` prefixes of one message of different lengths put a colon
      inside the longer type name. */
  lemma ColonInLonger(short: string, long: string, message: string)
    requires short + ":" <= message && long + ":" <= message
    requires |short| < |long|
    ensures ':' in long
  {
    assert long[|short|] == message[|short|] == (short + ":")[|short|];
  }

  /** When no type name holds a colon, at most one type can match, so the
      order of the injected list does not matter. */
  lemma MatchedTypeUnique(types: seq<string>, message: string, t: string)
    requires forall u :: u in types ==> ':' !in u
    requires t in types && t + ":" <= message
    ensures MatchedType(types, message) == Some(t)
  {
    var u := MatchedType(types, message).value;
    if |u| < |t| {
      ColonInLonger(u, t, message);
      assert false;
    } else if |t| < |u| {
      ColonInLonger(t, u, message);
      assert false;
    } else {
      assert (u + ":")[..|u|] == u && (t + ":")[..|t|] == t;
      assert u == message[..|u|] == t;
    }
  }

  /** The whitespace class `\s` of JavaScript regular expressions. */
  predicate IsRegExpSpace(c: char) {
    || c == '\t' || c == '\n' || c == '\U{000B}' || c == '\U{000C}' || c == '\r' || c == ' '
    || c == '\U{00A0}' || c == '\U{1680}' || ('\U{2000}' <= c <= '\U{200A}')
    || c == '\U{2028}' || c == '\U{2029}' || c == '\U{202F}' || c == '\U{205F}'
    || c == '\U{3000}' || c == '\U{FEFF}'
  }

  /** From index `j` the message reads `word`, then at least one character
      other than `)`, then one `)` that ends the message. */
  predicate RefTail(m: string, j: nat, word: string) {
    && j + |word| < |m| - 1
    && m[j..j + |word|] == word
    && m[|m| - 1] == ')'
    && forall k :: j + |word| <= k < |m| - 1 ==> m[k] != ')'
  }

  /** A match of `\s\((HEAD|origin)[^)]+\)$` starts at index `i`. */
  predicate ArtifactAt(m: string, i: nat) {
    && i + 1 < |m|
    && IsRegExpSpace(m[i])
    && m[i + 1] == '('
    && (RefTail(m, i + 2, "HEAD") || RefTail(m, i + 2, "origin"))
  }

  /** The leftmost start, at or after `from`, of a ref annotation. */
  function FindArtifact(m: string, from: nat): (r: Option<nat>)
    requires from <= |m|
    decreases |m| - from
    ensures r.Some? ==> from <= r.value < |m| && ArtifactAt(m, r.value)
    ensures forall k :: from <= k < |m| && (r.None? || k < r.value) ==> !ArtifactAt(m, k)
  {
    if from == |m| then None
    else if ArtifactAt(m, from) then Some(from)
    else FindArtifact(m, from + 1)
  }

  /** The message without its trailing ref annotation, such as
      " (HEAD -> master, origin/master)". */
  function CleanMessage(m: string): (r: string)
    ensures r <= m
    ensures r == m <==> forall k :: 0 <= k < |m| ==> !ArtifactAt(m, k)
    ensures r != m ==> ArtifactAt(m, |r|) && forall k :: 0 <= k < |r| ==> !ArtifactAt(m, k)
  {
    match FindArtifact(m, 0)
    case None => m
    case Some(i) => m[..i]
  }

  /** A message whose last character is not `)` carries no annotation. */
  lemma CleanWithoutParen(m: string)
    requires m == [] || m[|m| - 1] != ')'
    ensures CleanMessage(m) == m
  {
  }

  /** A decoration `<space>(HEAD...)` or `<space>(origin...)` after a subject
      without parentheses is removed, and nothing else is. */
  lemma {:induction false} CleanStripsDecoration(subject: string, word: string, refs: string)
    requires '(' !in subject
    requires word == "HEAD" || word == "origin"
    requires |refs| > 0 && ')' !in refs
    ensures CleanMessage(subject + " (" + word + refs + ")") == subject
  {
    var m := subject + " (" + word + refs + ")";
    var j := |subject| + 2;
    assert m[j..j + |word|] == word;
    forall k | j + |word| <= k < |m| - 1
      ensures m[k] != ')'
    {
      assert m[k] == refs[k - j - |word|];
    }
    assert ArtifactAt(m, |subject|);
    forall k | 0 <= k < |subject|
      ensures !ArtifactAt(m, k)
    {
      assert m[k + 1] == (subject + [' '])[k + 1];
      assert m[k + 1] in subject || m[k + 1] == ' ';
    }
    assert m[..|subject|] == subject;
  }

  /** `(HEAD)` alone is kept: the pattern wants at least one character after
      the marker word. */
  lemma BareHeadKept()
    ensures CleanMessage("fix: x (HEAD)") == "fix: x (HEAD)"
  {
    var m := "fix: x (HEAD)";
    forall k | 0 <= k < |m|
      ensures !ArtifactAt(m, k)
    {
    }
  }

  /** The message with a leading known `type:` wrapped in `__`. */
  function Style(types: seq<string>, clean: string): (r: string)
    ensures MatchedType(types, clean).None? ==> r == clean
    ensures MatchedType(types, clean).Some? ==>
      var n := |MatchedType(types, clean).value| + 1;
      && |r| == |clean| + 4
      && r[..2] == "__" && r[2..n + 2] == clean[..n]
      && r[n + 2..n + 4] == "__" && r[n + 4..] == clean[n..]
  {
    match MatchedType(types, clean)
    case None => clean
    case Some(t) => "__" + clean[..|t| + 1] + "__" + clean[|t| + 1..]
  }

  /** Styling only adds underscores: every other character of the styled
      message comes from the cleaned one. */
  lemma StyleAddsOnlyUnderscores(types: seq<string>, clean: string, ch: char)
    requires ch != '_' && ch !in clean
    ensures ch !in Style(types, clean)
  {
    match MatchedType(types, clean)
    case None =>
    case Some(t) =>
      var n := |t| + 1;
      assert clean == clean[..n] + clean[n..];
      assert Style(types, clean) == "__" + clean[..n] + "__" + clean[n..];
  }

  /** `hash.substring(0, 7)`. */
  function ShortHash(hash: string): (r: string)
    ensures r <= hash
    ensures |r| == if |hash| < 7 then |hash| else 7
  {
    if |hash| < 7 then hash else hash[..7]
  }

  /** `createCommitMessage`: `- <styled message> [<short hash>]` and a newline. */
  function FormatLine(types: seq<string>, c: Commit): string {
    "- " + Style(types, CleanMessage(c.message)) + " [" + ShortHash(c.hash) + "]\n"
  }

  /** A formatted line is one line of Markdown list: it opens with `- `, ends
      with `]` and a newline, and holds no other newline when neither the
      message nor the hash holds one. */
  lemma FormatLineIsOneLine(types: seq<string>, c: Commit)
    requires '\n' !in c.message && '\n' !in c.hash
    ensures var line := FormatLine(types, c);
      && |line| >= 6 && line[..2] == "- " && line[|line| - 2..] == "]\n"
      && '\n' !in line[..|line| - 1]
  {
    var clean := CleanMessage(c.message);
    assert clean == c.message[..|clean|];
    assert '\n' !in clean;
    StyleAddsOnlyUnderscores(types, clean, '\n');
    var short := ShortHash(c.hash);
    assert short == c.hash[..|short|];
    assert '\n' !in short;
    var body := "- " + Style(types, clean) + " [" + short + "]";
    assert '\n' !in body;
    var line := FormatLine(types, c);
    assert line == body + "\n";
    assert line[..|line| - 1] == body;
  }

  /** A commit whose message opens with a known `type:` and carries no ref
      annotation becomes `- __type:__ subject [abcdefg]`. */
  lemma {:induction false} FormatTypedLine(types: seq<string>, hash: string, t: string, subject: string)
    requires forall u :: u in types ==> ':' !in u
    requires t in types
    requires subject == [] || subject[|subject| - 1] != ')'
    requires |hash| >= 7
    ensures FormatLine(types, Commit(hash, t + ":" + subject))
            == "- __" + t + ":__" + subject + " [" + hash[..7] + "]\n"
  {
    var m := t + ":" + subject;
    CleanWithoutParen(m);
    MatchedTypeUnique(types, m, t);
    assert m[..|t| + 1] == t + ":" && m[|t| + 1..] == subject;
    assert "- " + ("__" + (t + ":") + "__" + subject) == "- __" + t + ":__" + subject;
  }

  /** A commit whose message opens with no known `type:` keeps its cleaned
      message unstyled. */
  lemma FormatUntypedLine(types: seq<string>, c: Commit)
    requires MatchedType(types, CleanMessage(c.message)).None?
    ensures FormatLine(types, c) == "- " + CleanMessage(c.message) + " [" + ShortHash(c.hash) + "]\n"
  {
  }
}
