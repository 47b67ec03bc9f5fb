/**
 * How the changelog and the next version of one commit range relate: both are
 * computed from the same conventional commits, by src/commands/changelog.rs
 * and src/commands/version.rs.
 */
module Release {
  import opened Wrappers
  import opened Sequences
  import opened Conventional
  import opened Changelog
  import opened Version

  /** A commit range that bumps the version always has a non-empty changelog. */
  lemma BumpImpliesChangelog(base: SemVer, commits: seq<Commit>)
    ensures NextVersion(base, commits) != base ==> CategorizeCommits(commits) != []
  {
    if NextVersion(base, commits) != base {
      var i :| 0 <= i < |commits| && ((base.major > 0 && commits[i].breaking) || commits[i].typ == "feat" || commits[i].typ == "fix");
      assert commits[i] in commits && Placement(commits[i]).Some?;
      CategorizeCommitsPlacement(commits);
    }
  }

  /**
   * The converse does not hold: on a `0.y.z` base a breaking `chore` is listed
   * under BREAKING CHANGES while the version stays as it is.
   */
  lemma ChangelogWithoutBump()
    ensures var base, commits := SemVer(0, 3, 1, "", ""), [Commit("chore", "drop the old flag", true)];
      && CategorizeCommits(commits) == [Category(BreakingChangesName, commits)]
      && NextVersion(base, commits) == base
  {
    var c := Commit("chore", "drop the old flag", true);
    assert [c][..0] == [];
    KeepApplied(IsBreakingChange, c);
    KeepApplied(IsFeature, c);
    KeepApplied(IsFix, c);
    assert Filter([c], IsBreakingChange) == [c];
    assert Filter([c], IsFeature) == [];
    assert Filter([c], IsFix) == [];
    CategoriesInFixedOrder([c]);
  }
}
