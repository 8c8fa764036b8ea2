/**
 * The commit link mapper: turns the VCS root of a build and a commit id into
 * a browsable link, `{root}/commit/{id}`, or into no link. Whether the
 * tracker is enabled, which the source reads from the configuration store,
 * is a parameter. The commit id is a non-null string.
 */
module CommitLinkMapper {
  import opened Wrappers
  import opened Text

  /** The kind of VCS this mapper serves. */
  const VcsType: string := "Git"

  const GitSuffix: string := ".git"
  const CommitSegment: string := "/commit/"

  /** The root as `Map` uses it: when it ends in ".git", EVERY
      non-overlapping occurrence of ".git" is deleted (a `Replace`), which
      glues together the pieces between the occurrences. */
  function StripGit(root: string): (r: string)
    ensures EndsWith(root, GitSuffix) ==> r == Join(Split(root, GitSuffix), "")
    ensures !EndsWith(root, GitSuffix) ==> r == root
  {
    if EndsWith(root, GitSuffix) then
      ReplaceIsJoinOfSplit(root, GitSuffix, "");
      Replace(root, GitSuffix, "")
    else root
  }

  /** The link for `commitNumber` under `vcsRoot`, as the source computes it:
      none when disabled or blank; otherwise a root ending in ".git" with the
      pieces between its occurrences of ".git" glued together, then
      "/commit/" and the commit id. */
  function Map(enabled: bool, vcsRoot: Option<string>, commitNumber: string): (link: Option<string>)
    ensures link.None? <==> !enabled || IsNullOrWhiteSpace(vcsRoot)
    ensures link.Some? ==>
      link.value == (if EndsWith(vcsRoot.value, ".git") then Join(Split(vcsRoot.value, ".git"), "")
                     else vcsRoot.value) + "/commit/" + commitNumber
  {
    if !enabled || IsNullOrWhiteSpace(vcsRoot) then None
    else Some(StripGit(vcsRoot.value) + CommitSegment + commitNumber)
  }

  /** A disabled tracker yields no link, whatever the root and commit id. */
  lemma DisabledGivesNoLink(vcsRoot: Option<string>, commitNumber: string)
    ensures Map(false, vcsRoot, commitNumber) == None
  {
  }

  /** A null, empty or all-white-space root yields no link. */
  lemma BlankRootGivesNoLink(enabled: bool, vcsRoot: Option<string>, commitNumber: string)
    requires IsNullOrWhiteSpace(vcsRoot)
    ensures Map(enabled, vcsRoot, commitNumber) == None
  {
  }

  /** A usable root without the ".git" suffix is taken verbatim, even when
      ".git" occurs elsewhere in it. */
  lemma NoSuffixKeepsRoot(root: string, commitNumber: string)
    requires !IsNullOrWhiteSpace(Some(root)) && !EndsWith(root, GitSuffix)
    ensures Map(true, Some(root), commitNumber) == Some(root + "/commit/" + commitNumber)
  {
  }

  /** With the suffix, the pieces between the occurrences of ".git" are
      glued together, none of them holding a ".git" of its own. */
  lemma SuffixRemovesEveryOccurrence(root: string, commitNumber: string)
    requires !IsNullOrWhiteSpace(Some(root)) && EndsWith(root, GitSuffix)
    ensures Map(true, Some(root), commitNumber)
            == Some(Join(Split(root, GitSuffix), "") + "/commit/" + commitNumber)
    ensures forall k :: 0 <= k < |Split(root, GitSuffix)| ==> !Contains(Split(root, GitSuffix)[k], GitSuffix)
  {
    PiecesAreFree(root, GitSuffix);
  }

  /** Every link ends in "/commit/" and the commit id verbatim, and its
      length is that of the stripped root plus 8 plus that of the id. */
  lemma LinkShape(enabled: bool, vcsRoot: Option<string>, commitNumber: string)
    requires Map(enabled, vcsRoot, commitNumber).Some?
    ensures EndsWith(Map(enabled, vcsRoot, commitNumber).value, "/commit/" + commitNumber)
    ensures |Map(enabled, vcsRoot, commitNumber).value| == |StripGit(vcsRoot.value)| + 8 + |commitNumber|
  {
  }

  /** Deleting occurrences of ".git" never lengthens the root. */
  lemma StripNeverLengthens(root: string)
    ensures |StripGit(root)| <= |root|
  {
  }

  /** A root whose only occurrences of ".git" are one after `a` and the
      trailing one loses both: "https://github.com/u/u.github.io.git" gives
      "https://github.com/u/uhub.io/commit/X" (a = "https://github.com/u/u",
      b = "hub.io"). */
  lemma MiddleOccurrenceRemoved(a: string, b: string, commitNumber: string)
    requires NoOccurrenceBefore(a + GitSuffix + b + GitSuffix, GitSuffix, |a|)
    requires NoOccurrenceBefore(b + GitSuffix, GitSuffix, |b|)
    ensures Map(true, Some(a + GitSuffix + b + GitSuffix), commitNumber)
            == Some(a + b + "/commit/" + commitNumber)
  {
    var root := a + GitSuffix + b + GitSuffix;
    assert root[|a|] == '.';
    assert !IsNullOrWhiteSpace(Some(root));
    TwoOccurrencesStripped(a, b);
  }

  /** The root `a.gitb.git`, with no other occurrence of ".git", is stripped
      to `ab`. */
  lemma TwoOccurrencesStripped(a: string, b: string)
    requires NoOccurrenceBefore(a + GitSuffix + b + GitSuffix, GitSuffix, |a|)
    requires NoOccurrenceBefore(b + GitSuffix, GitSuffix, |b|)
    ensures StripGit(a + GitSuffix + b + GitSuffix) == a + b
  {
    var tail := b + GitSuffix;
    var rest := GitSuffix + tail;
    var root := a + GitSuffix + b + GitSuffix;
    assert root == a + rest;
    assert Replace(tail, GitSuffix, "") == b by {
      ReplaceSkip(b, GitSuffix, GitSuffix, "");
      ReplaceHit([], GitSuffix, "");
      assert GitSuffix + [] == GitSuffix;
    }
    assert Replace(rest, GitSuffix, "") == b by {
      ReplaceHit(tail, GitSuffix, "");
    }
    assert Replace(a + rest, GitSuffix, "") == a + b by {
      ReplaceSkip(a, rest, GitSuffix, "");
    }
    assert root[|root| - 4..] == GitSuffix;
  }

  // ---------------------------------------------------------------------
  // Stripping only the trailing ".git", which is what the `EndsWith(".git")`
  // guard in front of the `Replace` points to.

  /** The root with its trailing ".git" (if any) cut off, and nothing else. */
  function StripTrailingGit(root: string): (r: string)
    ensures EndsWith(root, GitSuffix) ==> r + GitSuffix == root
    ensures !EndsWith(root, GitSuffix) ==> r == root
  {
    if EndsWith(root, GitSuffix) then root[..|root| - |GitSuffix|] else root
  }

  /** The link built from the root with only its trailing ".git" removed. */
  function MapTrailingOnly(enabled: bool, vcsRoot: Option<string>, commitNumber: string): (link: Option<string>)
    ensures link.None? <==> !enabled || IsNullOrWhiteSpace(vcsRoot)
    ensures link.Some? ==> EndsWith(link.value, "/commit/" + commitNumber)
    ensures link.Some? && EndsWith(vcsRoot.value, ".git")
            ==> |link.value| == |vcsRoot.value| - 4 + 8 + |commitNumber|
                && link.value[..|vcsRoot.value| - 4] + ".git" == vcsRoot.value
    ensures link.Some? && !EndsWith(vcsRoot.value, ".git")
            ==> |link.value| == |vcsRoot.value| + 8 + |commitNumber|
                && link.value[..|vcsRoot.value|] == vcsRoot.value
  {
    if !enabled || IsNullOrWhiteSpace(vcsRoot) then None
    else Some(StripTrailingGit(vcsRoot.value) + CommitSegment + commitNumber)
  }

  /** The trailing-only link always names the repository of the root:
      putting ".git" back after the repository part gives the root. */
  lemma TrailingOnlyKeepsRepository(root: string, commitNumber: string)
    requires !IsNullOrWhiteSpace(Some(root)) && EndsWith(root, GitSuffix)
    ensures var link := MapTrailingOnly(true, Some(root), commitNumber).value;
            |link| == |root| - 4 + 8 + |commitNumber| && link[..|root| - 4] + GitSuffix == root
  {
  }

  /** On a root such as "https://github.com/u/u.github.io.git", the source's
      link names the repository "uhub.io", while the trailing-only link keeps
      "u.github.io": the two links differ. */
  lemma ReplaceMangles(a: string, b: string, commitNumber: string)
    requires NoOccurrenceBefore(a + GitSuffix + b + GitSuffix, GitSuffix, |a|)
    requires NoOccurrenceBefore(b + GitSuffix, GitSuffix, |b|)
    ensures Map(true, Some(a + GitSuffix + b + GitSuffix), commitNumber)
            == Some(a + b + "/commit/" + commitNumber)
    ensures MapTrailingOnly(true, Some(a + GitSuffix + b + GitSuffix), commitNumber)
            == Some(a + GitSuffix + b + "/commit/" + commitNumber)
    ensures Map(true, Some(a + GitSuffix + b + GitSuffix), commitNumber)
            != MapTrailingOnly(true, Some(a + GitSuffix + b + GitSuffix), commitNumber)
  {
    MiddleOccurrenceRemoved(a, b, commitNumber);
    var root := a + GitSuffix + b + GitSuffix;
    assert root[..|root| - 4] == a + GitSuffix + b;
  }

  /** The GitHub Pages root "https://github.com/u/u.github.io.git" meets the
      conditions of `ReplaceMangles`: its link names "uhub.io". */
  lemma PagesRootMangled(a: string, b: string, commitNumber: string)
    requires a == "https://github.com/u/u" && b == "hub.io"
    ensures Map(true, Some(a + GitSuffix + b + GitSuffix), commitNumber)
            == Some(a + b + "/commit/" + commitNumber)
    ensures Map(true, Some(a + GitSuffix + b + GitSuffix), commitNumber)
            != MapTrailingOnly(true, Some(a + GitSuffix + b + GitSuffix), commitNumber)
  {
    var root := a + GitSuffix + b + GitSuffix;
    forall i | 0 <= i < |a|
      ensures !StartsWith(root[i..], GitSuffix)
    {
      assert root[i] == a[i];
      if a[i] == '.' {
        assert i == 14;
        assert root[i + 1] == 'c';
      }
    }
    forall i | 0 <= i < |b|
      ensures !StartsWith((b + GitSuffix)[i..], GitSuffix)
    {
      assert (b + GitSuffix)[i] == b[i];
      if b[i] == '.' {
        assert i == 3;
        assert (b + GitSuffix)[i + 1] == 'i';
      }
    }
    ReplaceMangles(a, b, commitNumber);
  }
}
