/**
 * src/commands/version.rs, `get_next_version`: the version that follows a
 * base version given the commits since it. The source is commented out, but
 * the rule at lines 16-28 is complete: the first of three checks over the
 * whole commit list that fires decides the bump, following items 6-8 of
 * Semantic Versioning 2.0.0 (a patch bump keeps major and minor, a minor bump
 * resets patch, a major bump resets minor and patch), with a base of major
 * version zero never bumped to 1.0.0 by a breaking change.
 */
module Version {
  import opened Conventional

  /**
   * `semver::Version`: the numeric triple and the pre-release and build
   * metadata, the latter two kept as their text.
   */
  datatype SemVer = SemVer(major: nat, minor: nat, patch: nat, pre: string, build: string)

  /** `semver::Version::new`: a triple with no pre-release and no build metadata. */
  function NewVersion(major: nat, minor: nat, patch: nat): SemVer
  {
    SemVer(major, minor, patch, "", "")
  }

  /** The numeric triples in lexicographic order, strict and non-strict. */
  predicate TripleLess(a: SemVer, b: SemVer)
  {
    a.major < b.major ||
    (a.major == b.major && a.minor < b.minor) ||
    (a.major == b.major && a.minor == b.minor && a.patch < b.patch)
  }

  predicate TripleAtMost(a: SemVer, b: SemVer)
  {
    TripleLess(a, b) || (a.major == b.major && a.minor == b.minor && a.patch == b.patch)
  }

  /** `commits.iter().any(|x| x.breaking())` */
  predicate AnyBreaking(commits: seq<Commit>)
  {
    exists i :: 0 <= i < |commits| && commits[i].breaking
  }

  /** `commits.iter().any(|x| x.type_() == typ)` */
  predicate AnyOfType(commits: seq<Commit>, typ: string)
  {
    exists i :: 0 <= i < |commits| && commits[i].typ == typ
  }

  /** Whether one of the three checks of `get_next_version` fires. */
  predicate Bumps(base: SemVer, commits: seq<Commit>)
  {
    (base.major > 0 && AnyBreaking(commits)) || AnyOfType(commits, "feat") || AnyOfType(commits, "fix")
  }

  /**
   * `get_next_version`. When a check fires, the result is a fresh version with
   * a strictly greater triple and no metadata; when none fires (in particular
   * for no commits) it is the base itself, metadata included.
   */
  function NextVersion(base: SemVer, commits: seq<Commit>): (r: SemVer)
    ensures commits == [] ==> r == base
    ensures Bumps(base, commits) ==> TripleLess(base, r) && r.pre == "" && r.build == ""
    ensures !Bumps(base, commits) ==> r == base
    ensures TripleAtMost(base, r)
  {
    if base.major > 0 && AnyBreaking(commits) then
      NewVersion(base.major + 1, 0, 0)
    else if AnyOfType(commits, "feat") then
      NewVersion(base.major, base.minor + 1, 0)
    else if AnyOfType(commits, "fix") then
      NewVersion(base.major, base.minor, base.patch + 1)
    else
      base
  }

  // ---- An independent reference: the largest bump any single commit asks for ----

  datatype Bump = NoBump | PatchBump | MinorBump | MajorBump

  function Rank(b: Bump): nat
  {
    match b
    case NoBump => 0
    case PatchBump => 1
    case MinorBump => 2
    case MajorBump => 3
  }

  function Larger(a: Bump, b: Bump): Bump
  {
    if Rank(a) >= Rank(b) then a else b
  }

  /**
   * The bump one commit asks for on its own: a breaking commit a major bump,
   * unless the base is at major version zero; a `feat` a minor bump; a `fix`
   * a patch bump.
   */
  function CommitBump(base: SemVer, c: Commit): Bump
  {
    if base.major > 0 && c.breaking then MajorBump
    else if c.typ == "feat" then MinorBump
    else if c.typ == "fix" then PatchBump
    else NoBump
  }

  /** The largest bump any of the commits asks for. */
  function HighestBump(base: SemVer, commits: seq<Commit>): Bump
  {
    if commits == [] then NoBump
    else Larger(HighestBump(base, commits[..|commits| - 1]), CommitBump(base, commits[|commits| - 1]))
  }

  /** Bumping a version by one level, as items 6-8 of Semantic Versioning 2.0.0 prescribe. */
  function Apply(base: SemVer, b: Bump): SemVer
  {
    match b
    case NoBump => base
    case PatchBump => NewVersion(base.major, base.minor, base.patch + 1)
    case MinorBump => NewVersion(base.major, base.minor + 1, 0)
    case MajorBump => NewVersion(base.major + 1, 0, 0)
  }

  /** The three `any` checks, split at the last commit. */
  lemma AnySnoc(commits: seq<Commit>, c: Commit)
    ensures AnyBreaking(commits + [c]) <==> AnyBreaking(commits) || c.breaking
    ensures forall typ :: AnyOfType(commits + [c], typ) <==> AnyOfType(commits, typ) || c.typ == typ
  {
    var all := commits + [c];
    assert all[|commits|] == c;
    assert forall i :: 0 <= i < |commits| ==> all[i] == commits[i];
  }

  /**
   * The largest single-commit bump is the one the first-match precedence of
   * `get_next_version` picks.
   */
  lemma {:induction false} HighestBumpIsPrecedence(base: SemVer, commits: seq<Commit>)
    ensures HighestBump(base, commits) ==
      if base.major > 0 && AnyBreaking(commits) then MajorBump
      else if AnyOfType(commits, "feat") then MinorBump
      else if AnyOfType(commits, "fix") then PatchBump
      else NoBump
  {
    if commits != [] {
      var n := |commits| - 1;
      var front := commits[..n];
      HighestBumpIsPrecedence(base, front);
      assert commits == front + [commits[n]];
      AnySnoc(front, commits[n]);
    }
  }

  /**
   * `get_next_version` applies the largest bump any single commit asks for:
   * the precedence of its checks is the order of the bump levels.
   */
  lemma NextVersionIsHighestBump(base: SemVer, commits: seq<Commit>)
    ensures NextVersion(base, commits) == Apply(base, HighestBump(base, commits))
  {
    HighestBumpIsPrecedence(base, commits);
  }

  lemma {:induction false} HighestBumpAppend(base: SemVer, a: seq<Commit>, b: seq<Commit>)
    ensures Rank(HighestBump(base, a + b)) == Rank(Larger(HighestBump(base, a), HighestBump(base, b)))
  {
    if b != [] {
      var n := |b| - 1;
      HighestBumpAppend(base, a, b[..n]);
      assert (a + b)[..|a + b| - 1] == a + b[..n];
      assert (a + b)[|a + b| - 1] == b[n];
    } else {
      assert a + b == a;
    }
  }

  lemma RankDetermines(x: Bump, y: Bump)
    requires Rank(x) == Rank(y)
    ensures x == y
  {
  }

  /** The order of the commits does not matter: any permutation gives the same next version. */
  lemma NextVersionIgnoresOrder(base: SemVer, a: seq<Commit>, b: seq<Commit>)
    requires multiset(a) == multiset(b)
    ensures NextVersion(base, a) == NextVersion(base, b)
  {
    forall x | x in a ensures x in b {
      assert x in multiset(a);
    }
    forall x | x in b ensures x in a {
      assert x in multiset(b);
    }
    AnyCarriesOver(a, b);
    AnyCarriesOver(b, a);
  }

  /** Each of the three `any` checks that fires on `a` fires on a list holding every commit of `a`. */
  lemma AnyCarriesOver(a: seq<Commit>, b: seq<Commit>)
    requires forall x :: x in a ==> x in b
    ensures AnyBreaking(a) ==> AnyBreaking(b)
    ensures forall typ :: AnyOfType(a, typ) ==> AnyOfType(b, typ)
  {
    if AnyBreaking(a) {
      var i :| 0 <= i < |a| && a[i].breaking;
      assert a[i] in b;
      var j :| 0 <= j < |b| && b[j] == a[i];
    }
    forall typ | AnyOfType(a, typ) ensures AnyOfType(b, typ) {
      var i :| 0 <= i < |a| && a[i].typ == typ;
      assert a[i] in b;
      var j :| 0 <= j < |b| && b[j] == a[i];
    }
  }

  /** More commits never give a smaller version. */
  lemma NextVersionMonotone(base: SemVer, a: seq<Commit>, b: seq<Commit>)
    ensures TripleAtMost(NextVersion(base, a), NextVersion(base, a + b))
  {
    HighestBumpAppend(base, a, b);
    NextVersionIsHighestBump(base, a);
    NextVersionIsHighestBump(base, a + b);
  }

  /**
   * The major-version-zero asymmetry: on a `0.y.z` base, breaking commits
   * that are neither `feat` nor `fix` leave the version as it is, while the
   * same commits on a base of major version one or more bump the major
   * version.
   */
  lemma MajorZeroIgnoresBreakingChores(base: SemVer, commits: seq<Commit>)
    requires forall i :: 0 <= i < |commits| ==> commits[i].typ != "feat" && commits[i].typ != "fix"
    ensures base.major == 0 ==> NextVersion(base, commits) == base
    ensures base.major > 0 && AnyBreaking(commits) ==>
      NextVersion(base, commits) == NewVersion(base.major + 1, 0, 0)
  {
  }

  /** On a `0.y.z` base a breaking `feat` is a minor bump, not a major one. */
  lemma MajorZeroBreakingFeature(base: SemVer, commits: seq<Commit>, i: nat)
    requires base.major == 0 && i < |commits| && commits[i].typ == "feat"
    ensures NextVersion(base, commits) == NewVersion(0, base.minor + 1, 0)
  {
  }

  /** `v1.4.2` with a `feat`, a `fix` and a `chore` becomes `1.5.0`. */
  lemma NextVersionExample()
    ensures NextVersion(SemVer(1, 4, 2, "", ""),
      [Commit("feat", "add X", false), Commit("fix", "correct Y", false), Commit("chore", "cleanup", false)])
      == NewVersion(1, 5, 0)
  {
    var commits := [Commit("feat", "add X", false), Commit("fix", "correct Y", false), Commit("chore", "cleanup", false)];
    assert commits[0].typ == "feat";
  }
}
