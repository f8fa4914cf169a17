/** The changelog document manager (lib/changelog.js, lines 8-11 and 58-135):
    finding the newest recorded commit, building the first document, and
    splicing a new release section in after the title. The document is a
    field of `ChangelogFile`; the git history is a parameter. */
module Changelog {
  import opened Text
  import opened Commits
  import opened Version

  const Title := "# Changelog"

  /** The heading of one release section. */
  function ReleaseTitle(semver: string): string {
    "## v" + semver
  }

  // ---------------------------------------------------------------------
  // The newest recorded commit: `/\[([a-z0-9]{7})\]\n/`
  // ---------------------------------------------------------------------

  predicate IsMarkerChar(c: char) {
    'a' <= c <= 'z' || '0' <= c <= '9'
  }

  /** `[`, seven token characters, `]` and a newline. */
  predicate IsMarker(t: string) {
    && |t| == 10
    && t[0] == '['
    && (forall j :: 1 <= j < 8 ==> IsMarkerChar(t[j]))
    && t[8] == ']'
    && t[9] == '\n'
  }

  /** A marker starts at index `k` of `s`. */
  predicate MarkerAt(s: string, k: nat) {
    k + 10 <= |s| && IsMarker(s[k..k + 10])
  }

  /** The leftmost marker at or after `from`. */
  function FindMarker(s: string, from: nat): (r: Option<nat>)
    requires from <= |s|
    decreases |s| - from
    ensures r.Some? ==> from <= r.value < |s| && MarkerAt(s, r.value)
    ensures forall k :: from <= k < |s| && (r.None? || k < r.value) ==> !MarkerAt(s, k)
  {
    if from == |s| then None
    else if MarkerAt(s, from) then Some(from)
    else FindMarker(s, from + 1)
  }

  /** `getLastChangelogCommit`: the token of the first marker, if any. */
  function LastChangelogCommit(doc: string): (r: Option<string>)
    ensures r.None? <==> forall k :: 0 <= k < |doc| ==> !MarkerAt(doc, k)
    ensures r.Some? ==> |r.value| == 7 && forall i :: 0 <= i < 7 ==> IsMarkerChar(r.value[i])
  {
    match FindMarker(doc, 0)
    case None => None
    case Some(k) =>
      var token := doc[k + 1..k + 8];
      MarkerToken(doc, k, token);
      Some(token)
  }

  /** The seven characters between the brackets of a marker. */
  lemma MarkerToken(doc: string, k: nat, token: string)
    requires MarkerAt(doc, k) && token == doc[k + 1..k + 8]
    ensures forall i :: 0 <= i < 7 ==> IsMarkerChar(token[i])
  {
    forall i | 0 <= i < 7
      ensures IsMarkerChar(token[i])
    {
      assert token[i] == doc[k..k + 10][i + 1];
    }
  }

  /** The first marker of a document decides the newest recorded commit. */
  lemma FirstMarker(doc: string, k: nat)
    requires MarkerAt(doc, k)
    requires forall j :: 0 <= j < k ==> !MarkerAt(doc, j)
    ensures LastChangelogCommit(doc) == Some(doc[k + 1..k + 8])
  {
  }

  /** Text in front that holds no marker start leaves the answer to the rest. */
  lemma {:induction false} MarkerAfter(a: string, b: string)
    requires forall j :: 0 <= j < |a| ==> !MarkerAt(a + b, j)
    ensures LastChangelogCommit(a + b) == LastChangelogCommit(b)
  {
    var s := a + b;
    forall k | 0 <= k < |b|
      ensures MarkerAt(s, |a| + k) == MarkerAt(b, k)
    {
      if k + 10 <= |b| {
        assert s[|a| + k..|a| + k + 10] == b[k..k + 10];
      }
    }
    match FindMarker(b, 0)
    case None =>
      forall k | 0 <= k < |s|
        ensures !MarkerAt(s, k)
      {
        if k >= |a| {
          assert !MarkerAt(b, k - |a|);
        }
      }
    case Some(k) =>
      assert MarkerAt(s, |a| + k);
      forall j | 0 <= j < |a| + k
        ensures !MarkerAt(s, j)
      {
        if j >= |a| {
          assert !MarkerAt(b, j - |a|);
        }
      }
      FirstMarker(s, |a| + k);
      assert s[|a| + k + 1..|a| + k + 8] == b[k + 1..k + 8];
  }

  /** No marker starts in a prefix that holds no `]` and ends with a newline. */
  lemma NoMarkerInHeader(a: string, b: string)
    requires ']' !in a
    requires a == [] || a[|a| - 1] == '\n'
    ensures forall j :: 0 <= j < |a| ==> !MarkerAt(a + b, j)
  {
    var s := a + b;
    forall j | 0 <= j < |a|
      ensures !MarkerAt(s, j)
    {
      if j + 10 <= |s| {
        var t := s[j..j + 10];
        if j + 8 < |a| {
          assert t[8] == a[j + 8];
        } else {
          assert t[|a| - 1 - j] == a[|a| - 1] == '\n';
        }
      }
    }
  }

  /** The commits whose line the marker search finds again: a hash of at least
      seven characters from `[a-z0-9]` (git's lower-case hexadecimal) and a
      one-line message. */
  predicate Recordable(c: Commit) {
    && |c.hash| >= 7
    && (forall i :: 0 <= i < 7 ==> IsMarkerChar(c.hash[i]))
    && '\n' !in c.message
  }

  /** Formatting and marker search round-trip: the marker search on a
      formatted line, whatever follows it, returns the short hash. */
  lemma LineMarker(types: seq<string>, c: Commit, rest: string)
    requires Recordable(c)
    ensures LastChangelogCommit(FormatLine(types, c) + rest) == Some(c.hash[..7])
  {
    var clean := CleanMessage(c.message);
    assert clean == c.message[..|clean|];
    assert '\n' !in clean;
    StyleAddsOnlyUnderscores(types, clean, '\n');
    var short := c.hash[..7];
    var head := "- " + Style(types, clean) + " ";
    assert '\n' !in head;
    var tail := "[" + short + "]\n";
    assert FormatLine(types, c) + rest == head + tail + rest;
    assert IsMarker(tail);
    MarkerAfterHead(head, tail, rest);
    assert tail[1..8] == short;
  }

  /** A marker right after a text without newlines is the first marker: no
      marker can start earlier, since each would need a newline before the
      end of `tail`. */
  lemma MarkerAfterHead(head: string, tail: string, rest: string)
    requires '\n' !in head && IsMarker(tail)
    ensures LastChangelogCommit(head + tail + rest) == Some(tail[1..8])
  {
    var s := head + tail + rest;
    var p := |head|;
    assert s[p..p + 10] == tail;
    forall j | 0 <= j < p
      ensures !MarkerAt(s, j)
    {
      if j + 10 <= |s| {
        var t := s[j..j + 10];
        if j + 9 < p {
          assert t[9] == head[j + 9];
        } else {
          assert t[9] == tail[j + 9 - p];
        }
      }
    }
    FirstMarker(s, p);
    assert s[p + 1..p + 8] == tail[1..8];
  }

  // ---------------------------------------------------------------------
  // Documents
  // ---------------------------------------------------------------------

  /** The formatted line of each commit, in order (`commits.map(...)`). */
  function FormattedLines(types: seq<string>, commits: seq<Commit>): seq<string> {
    MapSeq(c => FormatLine(types, c), commits)
  }

  lemma FormattedLinesSnoc(types: seq<string>, commits: seq<Commit>, i: nat)
    requires i < |commits|
    ensures FormattedLines(types, commits[..i + 1])
            == FormattedLines(types, commits[..i]) + [FormatLine(types, commits[i])]
  {
    MapSeqSnoc(c => FormatLine(types, c), commits, i);
  }

  /** The title and the heading of a new release section, each followed by
      a blank line: the two pieces written in front of the formatted lines. */
  function SectionHeader(semver: string): string {
    (Title + "\n\n") + (ReleaseTitle(semver) + "\n\n")
  }

  /** The two pieces `createChangelog` pushes before the lines. */
  function HeaderPieces(semver: string): seq<string> {
    [Title + "\n\n", ReleaseTitle(semver) + "\n\n"]
  }

  /** Joining the two header pieces and the lines gives the header and then
      the joined lines. */
  lemma HeaderPiecesJoin(semver: string, lines: seq<string>)
    ensures Concat(HeaderPieces(semver) + lines) == SectionHeader(semver) + Concat(lines)
  {
    ConcatAppend(HeaderPieces(semver), lines);
    ConcatPair(Title + "\n\n", ReleaseTitle(semver) + "\n\n");
  }

  /** The first document `createChangelog` writes: the title and one section
      holding every included commit of the history. */
  function NewDocument(types: seq<string>, semver: string, log: seq<Commit>): (doc: string)
    ensures SectionHeader(semver) <= doc
    ensures Included(log) == [] ==> doc == SectionHeader(semver)
  {
    SectionHeader(semver) + Concat(FormattedLines(types, Included(log)))
  }

  /** One step of the push loop of `createChangelog`: pushing the next line
      extends the pieces by that commit's line. */
  lemma CreateStep(semver: string, types: seq<string>, commits: seq<Commit>, i: nat)
    requires i < |commits|
    ensures HeaderPieces(semver) + FormattedLines(types, commits[..i + 1])
            == HeaderPieces(semver) + FormattedLines(types, commits[..i]) + [FormatLine(types, commits[i])]
  {
    FormattedLinesSnoc(types, commits, i);
    AppendAssoc(HeaderPieces(semver), FormattedLines(types, commits[..i]), [FormatLine(types, commits[i])]);
  }

  /** The pieces of the whole history join into the new document. */
  lemma NewDocumentPieces(types: seq<string>, semver: string, log: seq<Commit>)
    ensures var commits := Included(log);
      Concat(HeaderPieces(semver) + FormattedLines(types, commits[..|commits|]))
      == NewDocument(types, semver, log)
  {
    var commits := Included(log);
    assert commits[..|commits|] == commits;
    HeaderPiecesJoin(semver, FormattedLines(types, commits));
  }

  /** The joined lines and some older text, cut after the first line. */
  lemma DocumentShape(lines: seq<string>, tail: string)
    requires |lines| > 0
    ensures Concat(lines) + tail == lines[0] + (Concat(lines[1..]) + tail)
  {
    ConcatFront(lines);
    AppendAssoc(lines[0], Concat(lines[1..]), tail);
  }

  /** No marker starts in the section header when the version holds no `]`. */
  lemma HeaderHasNoMarker(semver: string, rest: string)
    requires ']' !in semver
    ensures forall j :: 0 <= j < |SectionHeader(semver)| ==> !MarkerAt(SectionHeader(semver) + rest, j)
  {
    assert ']' !in SectionHeader(semver);
    NoMarkerInHeader(SectionHeader(semver), rest);
  }

  /** The title, a new section, then `tail`: the newest recorded commit of such
      a document is the first commit of the new section. */
  lemma DocumentMarker(types: seq<string>, semver: string, commits: seq<Commit>, tail: string)
    requires ']' !in semver
    requires |commits| > 0 && Recordable(commits[0])
    ensures LastChangelogCommit(SectionHeader(semver) + (Concat(FormattedLines(types, commits)) + tail))
            == Some(commits[0].hash[..7])
  {
    var lines := FormattedLines(types, commits);
    var rest := Concat(lines[1..]) + tail;
    var line := FormatLine(types, commits[0]) + rest;
    DocumentShape(lines, tail);
    MapSeqAt(c => FormatLine(types, c), commits, 0);
    HeaderHasNoMarker(semver, line);
    MarkerAfter(SectionHeader(semver), line);
    LineMarker(types, commits[0], rest);
  }

  /** Bootstrap then re-parse: on a freshly created document the newest
      recorded commit is the newest included commit of the history. */
  lemma NewDocumentMarker(types: seq<string>, semver: string, log: seq<Commit>)
    requires ']' !in semver
    requires Included(log) != [] && Recordable(Included(log)[0])
    ensures LastChangelogCommit(NewDocument(types, semver, log)) == Some(Included(log)[0].hash[..7])
  {
    var lines := Concat(FormattedLines(types, Included(log)));
    assert lines + "" == lines;
    DocumentMarker(types, semver, Included(log), "");
  }

  /** A history in which every commit is excluded bootstraps a document with
      no marker, so every later update finds nothing to start from. */
  lemma EmptyBootstrapUnusable(types: seq<string>, semver: string, log: seq<Commit>)
    requires ']' !in semver
    requires Included(log) == []
    ensures LastChangelogCommit(NewDocument(types, semver, log)) == None
  {
    var doc := NewDocument(types, semver, log);
    assert FormattedLines(types, Included(log)) == [];
    assert doc == SectionHeader(semver) + "";
    HeaderHasNoMarker(semver, "");
  }

  /** Whether any commit asks for a feature release. */
  predicate HasFeature(commits: seq<Commit>) {
    exists i :: 0 <= i < |commits| && IsFeature(commits[i].message)
  }

  lemma HasFeatureSnoc(commits: seq<Commit>, i: nat)
    requires i < |commits|
    ensures HasFeature(commits[..i + 1]) <==> HasFeature(commits[..i]) || IsFeature(commits[i].message)
  {
    var longer := commits[..i + 1];
    assert longer[i] == commits[i];
    assert forall k :: 0 <= k < i ==> longer[k] == commits[..i][k];
  }

  /** The release kind of an update: patch, minor when some included commit
      is a feature, major whenever a major release is forced. */
  function ReleaseKind(commits: seq<Commit>, forceMajor: bool): (kind: string)
    ensures kind == MajorRelease <==> forceMajor
    ensures kind == MinorRelease <==> !forceMajor && HasFeature(commits)
    ensures kind == PatchRelease <==> !forceMajor && !HasFeature(commits)
  {
    if forceMajor then MajorRelease
    else if HasFeature(commits) then MinorRelease
    else PatchRelease
  }

  /** The old text that follows the new section: everything after the first
      title, or the whole text when there is no title. */
  function PreviousChanges(doc: string): (r: string)
    ensures IndexOf(doc, Title, 0).None? ==> r == doc
    ensures IndexOf(doc, Title, 0).Some? ==> doc == doc[..IndexOf(doc, Title, 0).value] + Title + r
  {
    match IndexOf(doc, Title, 0)
    case None => doc
    case Some(i) =>
      assert doc == doc[..i] + doc[i..i + |Title|] + doc[i + |Title|..];
      doc[i + |Title|..]
  }

  /** `markdown.split(documentTitle)[1]` as the source computes it: the text
      between the first and the second title, up to the end when there is no
      second one, and the word "undefined" when there is no title at all. */
  function PreviousChangesAsWritten(doc: string): (r: string)
    ensures IndexOf(doc, Title, 0).None? ==> r == "undefined"
    ensures IndexOf(doc, Title, 0).Some? ==>
      var after := doc[IndexOf(doc, Title, 0).value + |Title|..];
      && r <= after
      && (IndexOf(after, Title, 0).None? ==> r == after)
      && (IndexOf(after, Title, 0).Some? ==> OccursAt(after, Title, |r|) && IndexOf(after, Title, 0) == Some(|r|))
  {
    match IndexOf(doc, Title, 0)
    case None => "undefined"
    case Some(i) =>
      var after := doc[i + |Title|..];
      match IndexOf(after, Title, 0)
      case None => after
      case Some(j) => after[..j]
  }

  /** The second title drops all older history in the code as written. */
  lemma AsWrittenTruncatesAtSecondTitle(body: string, j: nat)
    requires IndexOf(body, Title, 0) == Some(j)
    ensures PreviousChangesAsWritten(Title + body) == body[..j]
    ensures |PreviousChangesAsWritten(Title + body)| < |body|
  {
    var doc := Title + body;
    assert OccursAt(doc, Title, 0);
    assert doc[|Title|..] == body;
  }

  /** An old text that mentions the title again, for instance in a commit
      message: the code as written keeps only what precedes the mention,
      the corrected splice keeps all of it. */
  lemma MentionedTitleSplit(pre: string, post: string)
    requires forall k :: 0 <= k < |pre| ==> !OccursAt(pre + Title + post, Title, k)
    ensures PreviousChangesAsWritten(Title + (pre + Title + post)) == pre
    ensures PreviousChanges(Title + (pre + Title + post)) == pre + Title + post
  {
    var body := pre + Title + post;
    assert body[|pre|..|pre| + |Title|] == Title;
    assert OccursAt(body, Title, |pre|);
    AsWrittenTruncatesAtSecondTitle(body, |pre|);
    PreviousChangesAfterTitle(body);
    assert body[..|pre|] == pre;
  }

  /** A document that holds a marker but no title reaches the update with
      the word "undefined" as its old text in the code as written. */
  lemma AsWrittenUndefinedTail(short: string)
    requires |short| == 7 && forall i :: 0 <= i < 7 ==> IsMarkerChar(short[i])
    ensures LastChangelogCommit("[" + short + "]\n") == Some(short)
    ensures PreviousChangesAsWritten("[" + short + "]\n") == "undefined"
  {
    var doc := "[" + short + "]\n";
    assert MarkerAt(doc, 0);
    FirstMarker(doc, 0);
    assert doc[1..8] == short;
  }

  /** With the corrected splice, the whole text after the title survives the
      update byte for byte, even when it mentions the title again. */
  lemma UpdatePreservesHistory(types: seq<string>, body: string, semver: string, commits: seq<Commit>)
    ensures UpdatedDocument(types, Title + body, semver, commits)
            == SectionHeader(semver) + (Concat(FormattedLines(types, commits)) + body)
  {
    PreviousChangesAfterTitle(body);
  }

  /** The corrected splice keeps everything after a leading title. */
  lemma PreviousChangesAfterTitle(body: string)
    ensures PreviousChanges(Title + body) == body
  {
    var doc := Title + body;
    assert OccursAt(doc, Title, 0);
    assert doc[|Title|..] == body;
  }

  /** The document after an update: the title, the new section, then the
      previous text after the title. */
  function UpdatedDocument(types: seq<string>, doc: string, semver: string, commits: seq<Commit>): (r: string)
    ensures SectionHeader(semver) <= r
    ensures commits == [] ==> r == SectionHeader(semver) + PreviousChanges(doc)
  {
    SectionHeader(semver) + (Concat(FormattedLines(types, commits)) + PreviousChanges(doc))
  }

  /** After an update the newest recorded commit is the newest commit of the
      new section, so the next update starts where this one ended. */
  lemma UpdatedDocumentMarker(types: seq<string>, doc: string, version: string, kind: string, commits: seq<Commit>)
    requires WellFormedVersion(version)
    requires |commits| > 0 && Recordable(commits[0])
    ensures LastChangelogCommit(UpdatedDocument(types, doc, Bumped(version, kind), commits))
            == Some(commits[0].hash[..7])
  {
    BumpedDigits(version, kind);
    DocumentMarker(types, Bumped(version, kind), commits, PreviousChanges(doc));
  }

  // ---------------------------------------------------------------------
  // The changelog file
  // ---------------------------------------------------------------------

  /** What an update did. The source returns nothing in every case; the two
      ways of doing nothing are told apart here. */
  datatype UpdateOutcome =
    | Unusable                                  // no marker in the document
    | NoChanges                                 // no included commit since it
    | Released(kind: string, version: string)   // a section was added

  /** The changelog file with the known commit types it formats with. */
  class ChangelogFile {
    const knownTypes: seq<string>
    var text: string

    constructor (knownTypes: seq<string>, text: string)
      ensures this.knownTypes == knownTypes && this.text == text
    {
      this.knownTypes := knownTypes;
      this.text := text;
    }

    /** `createChangelog`: overwrite the file with a first document built from
        the whole history `log`, newest first. */
    method CreateChangelog(semver: string, log: seq<Commit>)
      modifies this
      ensures text == NewDocument(knownTypes, semver, log)
    {
      var contents := [Title + "\n\n"];
      contents := contents + [ReleaseTitle(semver) + "\n\n"];
      var commits := Included(log);
      var i := 0;
      while i < |commits|
        invariant 0 <= i <= |commits|
        invariant contents == HeaderPieces(semver) + FormattedLines(knownTypes, commits[..i])
      {
        CreateStep(semver, knownTypes, commits, i);
        contents := contents + [FormatLine(knownTypes, commits[i])];
        i := i + 1;
      }
      NewDocumentPieces(knownTypes, semver, log);
      text := Concat(contents);
    }

    /** The `commits.map` pass of `updateChangelog`: one formatted line per
        commit, and the kind moves from patch to minor at the first feature. */
    method CollectChanges(commits: seq<Commit>) returns (changes: seq<string>, kind: string)
      ensures changes == FormattedLines(knownTypes, commits)
      ensures kind == if HasFeature(commits) then MinorRelease else PatchRelease
    {
      kind := PatchRelease;
      changes := [];
      var i := 0;
      while i < |commits|
        invariant 0 <= i <= |commits|
        invariant changes == FormattedLines(knownTypes, commits[..i])
        invariant kind == if HasFeature(commits[..i]) then MinorRelease else PatchRelease
      {
        var commit := commits[i];
        FormattedLinesSnoc(knownTypes, commits, i);
        HasFeatureSnoc(commits, i);
        if IsFeature(commit.message) {
          kind := MinorRelease;
        }
        changes := changes + [FormatLine(knownTypes, commit)];
        i := i + 1;
      }
      assert commits[..i] == commits;
    }

    /** `updateChangelog`: find the newest recorded commit, take the history
        since it from `gitLog`, and when some commit is included, bump the
        package version and put a new section right after the title. */
    method UpdateChangelog(pkg: Package, gitLog: string -> seq<Commit>, forceMajor: bool)
      returns (outcome: UpdateOutcome)
      requires LastChangelogCommit(text).Some? && Included(gitLog(LastChangelogCommit(text).value)) != [] ==>
        VersionKey in pkg.meta && WellFormedVersion(pkg.meta[VersionKey])
      modifies this, pkg
      ensures LastChangelogCommit(old(text)).None? ==>
        outcome == Unusable && text == old(text) && pkg.meta == old(pkg.meta)
      ensures LastChangelogCommit(old(text)).Some? ==>
        var commits := Included(gitLog(LastChangelogCommit(old(text)).value));
        if commits == [] then
          outcome == NoChanges && text == old(text) && pkg.meta == old(pkg.meta)
        else
          var kind := ReleaseKind(commits, forceMajor);
          var semver := Bumped(old(pkg.meta[VersionKey]), kind);
          && outcome == Released(kind, semver)
          && pkg.meta == old(pkg.meta)[VersionKey := semver]
          && text == UpdatedDocument(knownTypes, old(text), semver, commits)
      ensures outcome.Released? ==>
        && VersionKey in old(pkg.meta) && WellFormedVersion(old(pkg.meta[VersionKey]))
        && WellFormedVersion(outcome.version)
        && LexLess(Components(old(pkg.meta[VersionKey])), Components(outcome.version))
    {
      var lastCommit := LastChangelogCommit(text);
      if lastCommit.None? {
        return Unusable;
      }
      var log := gitLog(lastCommit.value);
      var commits := Included(log);
      var changes, kind := CollectChanges(commits);
      if forceMajor {
        kind := MajorRelease;
      }
      if |changes| == 0 {
        return NoChanges;
      }
      BumpIncreases(pkg.meta[VersionKey], kind);
      var semver := pkg.BumpVersion(kind);
      var markdown := text;
      var latestChanges := Concat(changes);
      var previousChanges := PreviousChanges(markdown);
      text := SectionHeader(semver) + (latestChanges + previousChanges);
      outcome := Released(kind, semver);
    }
  }
}
