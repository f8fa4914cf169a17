/** Concrete cases: the repository's own test expectations and worked
    examples of the version and document rules, restated over the model. */
module Cases {
  import opened Text
  import opened Commits
  import opened Version
  import opened Changelog

  /** Formatting one commit (test/changelog.test.js): the message
      `refactor: Updated docs; updated deps` of commit `8c52e96efb2b...`
      becomes `- __refactor:__ Updated docs; updated deps [8c52e96]` and a
      newline. The strings are written in pieces only to keep the proof short. */
  lemma FormatLineExample()
    ensures FormatLine(ConventionalTypes,
                       Commit("8c52e96" + "efb2b63409dec89adb605739ca579f77c",
                              "refactor" + ":" + " Updated docs; updated deps"))
            == "- __" + "refactor" + ":__" + " Updated docs; updated deps" + " [" + "8c52e96" + "]\n"
  {
    var short := "8c52e96";
    var hash := short + "efb2b63409dec89adb605739ca579f77c";
    assert ConventionalTypes[4] == "refactor";
    ConventionalTypesHaveNoColon();
    FormatTypedLine(ConventionalTypes, hash, "refactor", " Updated docs; updated deps");
    assert hash[..7] == short;
  }

  /** Version 1.2.3 splits into its three numerals. */
  lemma SplitExample()
    ensures Split("1.2.3", '.') == ["1", "2", "3"]
  {
    assert Join(["1", "2", "3"], '.') == "1.2.3";
    SplitJoin(["1", "2", "3"], '.');
  }

  /** The worked bumps of version 1.2.3: 1.2.4, 1.3.0 and 2.0.0. */
  lemma BumpPatchExample()
    ensures Bumped("1.2.3", PatchRelease) == "1.2.4"
  {
    SplitExample();
    assert Increment("3") == "4";
    assert Join(["1", "2", "4"], '.') == "1.2.4";
  }

  lemma BumpMinorExample()
    ensures Bumped("1.2.3", MinorRelease) == "1.3.0"
  {
    SplitExample();
    assert Increment("2") == "3";
    assert Join(["1", "3", "0"], '.') == "1.3.0";
  }

  lemma BumpMajorExample()
    ensures Bumped("1.2.3", MajorRelease) == "2.0.0"
  {
    SplitExample();
    assert Increment("1") == "2";
    assert Join(["2", "0", "0"], '.') == "2.0.0";
  }

  /** `parseInt("09", 10) + 1` renders as `10`. */
  lemma IncrementNine()
    ensures Increment("09") == "10"
  {
    assert ParseNat("09") == 9;
    assert NatToString(10) == "10";
  }

  /** Components that are carried over keep their text: a leading zero
      survives a patch release, and only the parsed component is rewritten. */
  lemma LeadingZeroKept()
    ensures WellFormedVersion("01.2.09") && Bumped("01.2.09", PatchRelease) == "01.2.10"
  {
    var parts := ["01", "2", "09"];
    assert Join(parts, '.') == "01.2.09";
    NumeralsSplitJoin(parts);
    IncrementNine();
    assert BumpedComponents("01", "2", "09", PatchRelease) == ["01", "2", "10"];
    assert Join(["01", "2", "10"], '.') == "01.2.10";
  }

  /** A released entry that mentions `# Changelog`: splitting the document on
      the title, as the source does, keeps only the text before the mention,
      and the next update would drop the rest of the history. */
  lemma MentionedTitleExample()
    ensures PreviousChangesAsWritten(Title + ("\n\n## v1.0.1\n\n- __docs:__ explain " + Title + " [abcdef1]\n"))
            == "\n\n## v1.0.1\n\n- __docs:__ explain "
  {
    var pre := "\n\n## v1.0.1\n\n- __docs:__ explain ";
    var post := " [abcdef1]\n";
    forall k | 0 <= k < |pre|
      ensures !OccursAt(pre + Title + post, Title, k)
    {
      var s := pre + Title + post;
      if k + |Title| <= |s| {
        if pre[k] == '#' {
          assert s[k..k + |Title|][2] == pre[k + 2];
        } else {
          assert s[k..k + |Title|][0] == pre[k];
        }
      }
    }
    MentionedTitleSplit(pre, post);
  }
}
