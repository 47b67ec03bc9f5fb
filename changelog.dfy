/**
 * src/commands/changelog.rs: the commits sorted into the three fixed
 * categories, and the Markdown and JSON renderings of those categories. The
 * source prints the renderings piece by piece to standard output; here each
 * renderer appends the same pieces to the string it returns.
 */
module Changelog {
  import opened Wrappers
  import opened Sequences
  import opened Conventional

  /** A category: its name and its commits, in commit order. */
  datatype Category = Category(name: string, commits: seq<Commit>)

  const BreakingChangesName := "BREAKING CHANGES"
  const FeaturesName := "Features"
  const BugFixesName := "Bug Fixes"

  /** The three filters of `categorize_commits`. */
  predicate IsBreakingChange(c: Commit) { c.breaking }
  predicate IsFeature(c: Commit) { !c.breaking && c.typ == "feat" }
  predicate IsFix(c: Commit) { !c.breaking && c.typ == "fix" }

  predicate HasCommits(c: Category) { |c.commits| > 0 }

  /**
   * The three categories `categorize_commits` builds, before the empty ones
   * are dropped: BREAKING CHANGES, Features and Bug Fixes, in that order, each
   * holding exactly the input commits the categorisation places under its
   * name.
   */
  function Candidates(commits: seq<Commit>): (r: seq<Category>)
    ensures |r| == 3
    ensures r[0].name == BreakingChangesName && r[1].name == FeaturesName && r[2].name == BugFixesName
    ensures forall j, c :: 0 <= j < 3 && c in commits ==>
      (c in r[j].commits <==> Placement(c) == Some(r[j].name))
    ensures forall j, c :: 0 <= j < 3 && c in r[j].commits ==> c in commits
  {
    FilterContents(commits, IsBreakingChange);
    FilterContents(commits, IsFeature);
    FilterContents(commits, IsFix);
    [ Category(BreakingChangesName, Filter(commits, IsBreakingChange)),
      Category(FeaturesName, Filter(commits, IsFeature)),
      Category(BugFixesName, Filter(commits, IsFix)) ]
  }

  /** `categorize_commits`: at most three categories, each a non-empty candidate. */
  function CategorizeCommits(commits: seq<Commit>): (r: seq<Category>)
    ensures |r| <= 3
    ensures forall k :: 0 <= k < |r| ==> r[k] in Candidates(commits) && r[k].commits != []
  {
    FilterContents(Candidates(commits), HasCommits);
    FilterMapLength(Candidates(commits), Keep(HasCommits));
    Filter(Candidates(commits), HasCommits)
  }

  /** A category holding `commits`, if there are any. */
  function Present(name: string, commits: seq<Commit>): seq<Category>
  {
    if commits == [] then [] else [Category(name, commits)]
  }

  /**
   * The categories come in the fixed order BREAKING CHANGES, Features, Bug
   * Fixes, each holding the commits of its filter, and a category whose filter
   * keeps nothing is left out.
   */
  lemma CategoriesInFixedOrder(commits: seq<Commit>)
    ensures CategorizeCommits(commits) ==
      Present(BreakingChangesName, Filter(commits, IsBreakingChange)) +
      Present(FeaturesName, Filter(commits, IsFeature)) +
      Present(BugFixesName, Filter(commits, IsFix))
  {
    var all := Candidates(commits);
    FilterThree(all[0], all[1], all[2], HasCommits);
  }

  lemma FilterThree<T>(a: T, b: T, c: T, p: T -> bool)
    ensures Filter([a, b, c], p) ==
      (if p(a) then [a] else []) + (if p(b) then [b] else []) + (if p(c) then [c] else [])
  {
    KeepApplied(p, a);
    KeepApplied(p, b);
    KeepApplied(p, c);
    assert [a, b, c][..2] == [a, b] && [a, b][..1] == [a] && [a][..0] == [];
    assert FilterMap([a], Keep(p)) == Kept(Keep(p)(a));
    assert FilterMap([a, b], Keep(p)) == Kept(Keep(p)(a)) + Kept(Keep(p)(b));
  }

  /** Where the categorisation places a commit: the first of the three rules it meets, if any. */
  function Placement(c: Commit): Option<string>
  {
    if c.breaking then Some(BreakingChangesName)
    else if c.typ == "feat" then Some(FeaturesName)
    else if c.typ == "fix" then Some(BugFixesName)
    else None
  }

  /** Every emitted category is one of the three candidates, and has commits. */
  lemma CategoriesAreCandidates(commits: seq<Commit>)
    ensures var r, q := CategorizeCommits(commits), Positions(Candidates(commits), Keep(HasCommits));
      && |r| == |q|
      && (forall k :: 0 <= k < |q| ==> q[k] < 3 && r[k] == Candidates(commits)[q[k]] && r[k].commits != [])
      && (forall a, b :: 0 <= a < b < |q| ==> q[a] < q[b])
      && (forall j :: 0 <= j < 3 && Candidates(commits)[j].commits != [] ==> j in q)
  {
    FilterContents(Candidates(commits), HasCommits);
  }

  /**
   * A commit of the input lies in an emitted category exactly when its
   * `Placement` names that category: a breaking `feat` or `fix` only under
   * BREAKING CHANGES, a non-breaking commit that is neither `feat` nor `fix`
   * nowhere.
   */
  lemma CategoryMembership(commits: seq<Commit>, c: Commit, k: nat)
    requires c in commits && k < |CategorizeCommits(commits)|
    ensures c in CategorizeCommits(commits)[k].commits <==> Placement(c) == Some(CategorizeCommits(commits)[k].name)
  {
    CategoriesAreCandidates(commits);
    var q := Positions(Candidates(commits), Keep(HasCommits));
  }

  /** A commit the categorisation places under a name is listed in a category of that name. */
  lemma PlacedCommitIsListed(commits: seq<Commit>, c: Commit)
    requires c in commits && Placement(c).Some?
    ensures exists k ::
      0 <= k < |CategorizeCommits(commits)| &&
      CategorizeCommits(commits)[k].name == Placement(c).value && c in CategorizeCommits(commits)[k].commits
  {
    var all, r := Candidates(commits), CategorizeCommits(commits);
    var q := Positions(all, Keep(HasCommits));
    var j := if c.breaking then 0 else if c.typ == "feat" then 1 else 2;
    assert Placement(c) == Some(all[j].name);
    assert all[j].commits != [];
    CategoriesAreCandidates(commits);
    assert j in q;
    var k :| 0 <= k < |q| && q[k] == j;
    assert r[k] == all[j];
    CategoryMembership(commits, c, k);
  }

  /** Categories hold only commits of the input. */
  lemma CategoriesFromInput(commits: seq<Commit>)
    ensures var r := CategorizeCommits(commits);
      forall k, c :: 0 <= k < |r| && c in r[k].commits ==> c in commits
  {
    var all, r := Candidates(commits), CategorizeCommits(commits);
    var q := Positions(all, Keep(HasCommits));
    CategoriesAreCandidates(commits);
    forall k, c | 0 <= k < |r| && c in r[k].commits ensures c in commits {
      assert c in all[q[k]].commits;
      if q[k] == 0 {
        FilterContents(commits, IsBreakingChange);
      } else if q[k] == 1 {
        FilterContents(commits, IsFeature);
      } else {
        FilterContents(commits, IsFix);
      }
    }
  }

  /** The filter of the category with the given name. */
  function Rule(name: string): Commit -> bool
  {
    if name == BreakingChangesName then IsBreakingChange
    else if name == FeaturesName then IsFeature
    else IsFix
  }

  /**
   * Within a category the commits keep their input order: the i-th is the
   * input commit at the i-th of increasing positions, those at which the
   * category's filter holds.
   */
  lemma CategoryKeepsInputOrder(commits: seq<Commit>, k: nat)
    requires k < |CategorizeCommits(commits)|
    ensures var c := CategorizeCommits(commits)[k];
      var q := Positions(commits, Keep(Rule(c.name)));
      && |c.commits| == |q|
      && (forall i :: 0 <= i < |q| ==> q[i] < |commits| && c.commits[i] == commits[q[i]])
      && (forall a, b :: 0 <= a < b < |q| ==> q[a] < q[b])
  {
    var all := Candidates(commits);
    CategoriesAreCandidates(commits);
    var j := Positions(all, Keep(HasCommits))[k];
    assert CategorizeCommits(commits)[k] == all[j];
    CandidateRule(commits, j);
    FilterContents(commits, Rule(all[j].name));
  }

  /** Each candidate holds the commits of the rule its name selects. */
  lemma CandidateRule(commits: seq<Commit>, j: nat)
    requires j < 3
    ensures Candidates(commits)[j].commits == Filter(commits, Rule(Candidates(commits)[j].name))
  {
    if j == 1 {
      assert FeaturesName != BreakingChangesName;
    } else if j == 2 {
      assert BugFixesName != BreakingChangesName && BugFixesName != FeaturesName;
    }
  }

  /** No two categories share a name. */
  lemma CategoryNamesDistinct(commits: seq<Commit>)
    ensures var r := CategorizeCommits(commits);
      forall a, b :: 0 <= a < b < |r| ==> r[a].name != r[b].name
  {
    var all, r := Candidates(commits), CategorizeCommits(commits);
    var q := Positions(all, Keep(HasCommits));
    CategoriesAreCandidates(commits);
    forall a, b | 0 <= a < b < |r| ensures r[a].name != r[b].name {
      assert q[a] < q[b] < 3;
      CandidateNames(commits, q[a]);
      CandidateNames(commits, q[b]);
    }
  }

  /** The position of a category name in the fixed order. */
  function NameIndex(name: string): nat
  {
    if name == BreakingChangesName then 0 else if name == FeaturesName then 1 else 2
  }

  lemma CandidateNames(commits: seq<Commit>, j: nat)
    requires j < 3
    ensures NameIndex(Candidates(commits)[j].name) == j
  {
  }

  /**
   * Every emitted category has commits; a commit of the input lies in exactly
   * the category its `Placement` names and in no other, and every commit with
   * a placement is listed; no category holds a commit that is not in the
   * input, and no two categories share a name.
   */
  lemma CategorizeCommitsPlacement(commits: seq<Commit>)
    ensures var r := CategorizeCommits(commits);
      && (forall k :: 0 <= k < |r| ==> r[k].commits != [])
      && (forall c, k :: c in commits && 0 <= k < |r| ==> (c in r[k].commits <==> Placement(c) == Some(r[k].name)))
      && (forall c :: c in commits && Placement(c).Some? ==> exists k :: 0 <= k < |r| && r[k].name == Placement(c).value)
      && (forall k, c :: 0 <= k < |r| && c in r[k].commits ==> c in commits)
      && (forall a, b :: 0 <= a < b < |r| ==> r[a].name != r[b].name)
  {
    var r := CategorizeCommits(commits);
    CategoriesAreCandidates(commits);
    CategoriesFromInput(commits);
    CategoryNamesDistinct(commits);
    forall c, k | c in commits && 0 <= k < |r|
      ensures c in r[k].commits <==> Placement(c) == Some(r[k].name)
    {
      CategoryMembership(commits, c, k);
    }
    forall c | c in commits && Placement(c).Some?
      ensures exists k :: 0 <= k < |r| && r[k].name == Placement(c).value
    {
      PlacedCommitIsListed(commits, c);
    }
  }

  /** No commit lies in two categories. */
  lemma CategoriesDisjoint(commits: seq<Commit>)
    ensures var r := CategorizeCommits(commits);
      forall a, b, c :: 0 <= a < b < |r| && c in r[a].commits ==> c !in r[b].commits
  {
    var r := CategorizeCommits(commits);
    CategorizeCommitsPlacement(commits);
    forall a, b, c | 0 <= a < b < |r| && c in r[a].commits ensures c !in r[b].commits {
      assert c in commits;
    }
  }

  /** The three rules are disjoint: no commit meets two of them. */
  lemma RulesDisjoint(c: Commit)
    ensures !(IsBreakingChange(c) && IsFeature(c))
    ensures !(IsBreakingChange(c) && IsFix(c))
    ensures !(IsFeature(c) && IsFix(c))
  {
  }

  // ---- Markdown ----

  /** `- **type:** description` and a line feed, one per commit. */
  function Bullet(c: Commit): string
  {
    "- **" + c.typ + ":** " + c.description + "\n"
  }

  function Heading(c: Category): string
  {
    "### " + c.name + "\n\n"
  }

  /** The bullets of `commits`, one line each, in order. */
  function Bullets(commits: seq<Commit>): string
  {
    if commits == [] then "" else Bullets(commits[..|commits| - 1]) + Bullet(commits[|commits| - 1])
  }

  /** A category's block: its heading, a blank line, and one bullet per commit. */
  function Block(c: Category): string
  {
    Heading(c) + Bullets(c.commits)
  }

  /** The Markdown changelog: the category blocks with one line feed between consecutive blocks. */
  function Markdown(categories: seq<Category>): string
  {
    Join("\n", Map(Block, categories))
  }

  /** One more category: a line feed unless it is the first, then its block. */
  lemma MarkdownStep(categories: seq<Category>, i: nat)
    requires i < |categories|
    ensures i == 0 ==> Markdown(categories[..i + 1]) == Block(categories[i])
    ensures i > 0 ==> Markdown(categories[..i + 1]) == Markdown(categories[..i]) + "\n" + Block(categories[i])
  {
    assert categories[..i + 1] == categories[..i] + [categories[i]];
    MapSnoc(Block, categories[..i], categories[i]);
    JoinSnoc("\n", Map(Block, categories[..i]), Block(categories[i]));
  }

  lemma BulletsStep(commits: seq<Commit>, j: nat)
    requires j < |commits|
    ensures Bullets(commits[..j + 1]) == Bullets(commits[..j]) + Bullet(commits[j])
  {
    assert commits[..j + 1][..j] == commits[..j];
  }

  /** `format_markdown`, with each `println!` appending its line to `out`. */
  method FormatMarkdown(categories: seq<Category>) returns (out: string)
    ensures out == Markdown(categories)
  {
    out := "";
    var first := true;
    for i := 0 to |categories|
      invariant first <==> i == 0
      invariant out == Markdown(categories[..i])
    {
      var category := categories[i];
      MarkdownStep(categories, i);
      if !first {
        out := out + "\n";
      }
      ghost var before := out;
      out := out + Heading(category);
      ghost var start := out;
      var commits := category.commits;
      for j := 0 to |commits|
        invariant out == start + Bullets(commits[..j])
      {
        BulletsStep(commits, j);
        AppendAssociative(start, Bullets(commits[..j]), Bullet(commits[j]));
        out := out + Bullet(commits[j]);
      }
      assert commits[..|commits|] == commits;
      AppendAssociative(before, Heading(category), Bullets(commits));
      if i == 0 {
        assert before == [];
      }
      first := false;
    }
    assert categories[..|categories|] == categories;
  }

  /**
   * The layout of the Markdown changelog: nothing for no categories; otherwise
   * it starts with the first category's heading (no leading blank line), and
   * it ends with the last category's block (no trailing separator), preceded
   * by one line feed when there is more than one category.
   */
  lemma MarkdownLayout(categories: seq<Category>)
    ensures categories == [] ==> Markdown(categories) == ""
    ensures categories != [] ==> Heading(categories[0]) <= Markdown(categories)
    ensures |categories| == 1 ==> Markdown(categories) == Block(categories[0])
    ensures |categories| > 1 ==>
      var n := |categories| - 1;
      Markdown(categories) == Markdown(categories[..n]) + "\n" + Block(categories[n])
  {
    if categories != [] {
      MarkdownStartsWithHeading(categories);
      if |categories| > 1 {
        var n := |categories| - 1;
        assert categories == categories[..n] + [categories[n]];
        MapSnoc(Block, categories[..n], categories[n]);
        JoinSnoc("\n", Map(Block, categories[..n]), Block(categories[n]));
      }
    }
  }

  lemma {:induction false} MarkdownStartsWithHeading(categories: seq<Category>)
    requires categories != []
    ensures Heading(categories[0]) <= Markdown(categories)
  {
    var n := |categories| - 1;
    if n > 0 {
      var front := categories[..n];
      MarkdownStartsWithHeading(front);
      assert categories == front + [categories[n]];
      MapSnoc(Block, front, categories[n]);
      JoinSnoc("\n", Map(Block, front), Block(categories[n]));
    }
  }

  /** The Markdown of two non-empty lists of categories is theirs with one line feed between. */
  lemma MarkdownAppend(a: seq<Category>, b: seq<Category>)
    requires a != [] && b != []
    ensures Markdown(a + b) == Markdown(a) + "\n" + Markdown(b)
  {
    assert Map(Block, a + b) == Map(Block, a) + Map(Block, b);
    JoinAppend("\n", Map(Block, a), Map(Block, b));
  }

  // ---- JSON ----

  /** `{"type": "T", "subject": "D"}`, the values inserted as they are, without escaping. */
  function CommitObject(c: Commit): string
  {
    "{\"type\": \"" + c.typ + "\", \"subject\": \"" + c.description + "\"}"
  }

  function CategoryOpening(c: Category): string
  {
    "{\"name\": \"" + c.name + "\",\"commits\":["
  }

  /** `{"name": "N","commits":[...]}` with the commit objects separated by commas. */
  function CategoryObject(c: Category): string
  {
    CategoryOpening(c) + Join(",", Map(CommitObject, c.commits)) + "]}"
  }

  /** The JSON changelog: the category objects, separated by commas, in brackets. */
  function Json(categories: seq<Category>): string
  {
    "[" + Join(",", Map(CategoryObject, categories)) + "]"
  }

  /** One more category object: a comma unless it is the first, then the object. */
  lemma JsonStep(categories: seq<Category>, i: nat)
    requires i < |categories|
    ensures i == 0 ==> Join(",", Map(CategoryObject, categories[..i + 1])) == CategoryObject(categories[i])
    ensures i > 0 ==>
      Join(",", Map(CategoryObject, categories[..i + 1])) ==
      Join(",", Map(CategoryObject, categories[..i])) + "," + CategoryObject(categories[i])
  {
    assert categories[..i + 1] == categories[..i] + [categories[i]];
    MapSnoc(CategoryObject, categories[..i], categories[i]);
    JoinSnoc(",", Map(CategoryObject, categories[..i]), CategoryObject(categories[i]));
  }

  lemma CommitObjectsStep(commits: seq<Commit>, j: nat)
    requires j < |commits|
    ensures j == 0 ==> Join(",", Map(CommitObject, commits[..j + 1])) == CommitObject(commits[j])
    ensures j > 0 ==>
      Join(",", Map(CommitObject, commits[..j + 1])) ==
      Join(",", Map(CommitObject, commits[..j])) + "," + CommitObject(commits[j])
  {
    assert commits[..j + 1] == commits[..j] + [commits[j]];
    MapSnoc(CommitObject, commits[..j], commits[j]);
    JoinSnoc(",", Map(CommitObject, commits[..j]), CommitObject(commits[j]));
  }

  /** `format_json`, with each `print!` appending its text to `out`. */
  method FormatJson(categories: seq<Category>) returns (out: string)
    ensures out == Json(categories)
  {
    var first := true;
    out := "[";
    for i := 0 to |categories|
      invariant first <==> i == 0
      invariant out == "[" + Join(",", Map(CategoryObject, categories[..i]))
    {
      var category := categories[i];
      ghost var objects := Join(",", Map(CategoryObject, categories[..i]));
      JsonStep(categories, i);
      if !first {
        out := out + ",";
      }
      ghost var before := out;
      out := out + CategoryOpening(category);
      ghost var start := out;
      var commits := category.commits;
      var firstCommit := true;
      for j := 0 to |commits|
        invariant firstCommit <==> j == 0
        invariant out == start + Join(",", Map(CommitObject, commits[..j]))
      {
        ghost var inner := Join(",", Map(CommitObject, commits[..j]));
        CommitObjectsStep(commits, j);
        if !firstCommit {
          out := out + ",";
          AppendAssociative(start, inner, ",");
          AppendAssociative(start, inner + ",", CommitObject(commits[j]));
        } else {
          assert inner == [];
        }
        out := out + CommitObject(commits[j]);
        firstCommit := false;
      }
      assert commits[..|commits|] == commits;
      ghost var inner := Join(",", Map(CommitObject, commits));
      out := out + "]}";
      AppendAssociative(before, CategoryOpening(category), inner);
      AppendAssociative(before, CategoryOpening(category) + inner, "]}");
      if i == 0 {
        assert objects == [];
      } else {
        AppendAssociative("[", objects, ",");
        AppendAssociative("[", objects + ",", CategoryObject(category));
      }
      first := false;
    }
    out := out + "]";
    assert categories[..|categories|] == categories;
  }

  /** No categories render as an empty array; otherwise the array opens with the first category's object. */
  lemma JsonLayout(categories: seq<Category>)
    ensures categories == [] ==> Json(categories) == "[]"
    ensures categories != [] ==> "[" + CategoryObject(categories[0]) <= Json(categories)
    ensures Json(categories)[0] == '[' && Json(categories)[|Json(categories)| - 1] == ']'
  {
    if categories != [] {
      JoinStartsWithFirst(",", Map(CategoryObject, categories));
    }
  }

  lemma {:induction false} JoinStartsWithFirst(sep: string, parts: seq<string>)
    requires parts != []
    ensures parts[0] <= Join(sep, parts)
  {
    if |parts| > 1 {
      var n := |parts| - 1;
      JoinStartsWithFirst(sep, parts[..n]);
    }
  }

  /**
   * Values are inserted without escaping, so the JSON rendering does not
   * determine its input: a quote inside a type can stand in for the end of the
   * type and the start of the subject.
   */
  lemma JsonIsAmbiguous()
    ensures var one := [Category("Features", [Commit("a", "b\", \"subject\": \"c", false)])];
      var two := [Category("Features", [Commit("a\", \"subject\": \"b", "c", false)])];
      one != two && Json(one) == Json(two)
  {
    var one := [Category("Features", [Commit("a", "b\", \"subject\": \"c", false)])];
    var two := [Category("Features", [Commit("a\", \"subject\": \"b", "c", false)])];
    assert one[0].commits[0].typ != two[0].commits[0].typ;
    assert CommitObject(one[0].commits[0]) == CommitObject(two[0].commits[0]);
  }

  /** The two values the `--format` option accepts; the argument parser refuses any other. */
  datatype OutputFormat = MarkdownFormat | JsonFormat

  /** `run`: the commits categorised, then rendered in the chosen format. */
  method Run(commits: seq<Commit>, format: OutputFormat) returns (out: string)
    ensures format == MarkdownFormat ==> out == Markdown(CategorizeCommits(commits))
    ensures format == JsonFormat ==> out == Json(CategorizeCommits(commits))
  {
    var categories := CategorizeCommits(commits);
    match format
    case MarkdownFormat =>
      out := FormatMarkdown(categories);
    case JsonFormat =>
      out := FormatJson(categories);
  }

  const ExampleCommits := [Commit("feat", "add X", false), Commit("fix", "correct Y", false), Commit("chore", "cleanup", false)]

  /** A `feat`, a `fix` and a `chore`: a Features and a Bug Fixes category, in that order, and nothing for the `chore`. */
  lemma ExampleCategories()
    ensures CategorizeCommits(ExampleCommits) ==
      [Category(FeaturesName, [ExampleCommits[0]]), Category(BugFixesName, [ExampleCommits[1]])]
  {
    var feat, fix, chore := ExampleCommits[0], ExampleCommits[1], ExampleCommits[2];
    assert ExampleCommits == [feat, fix, chore];
    FilterThree(feat, fix, chore, IsBreakingChange);
    FilterThree(feat, fix, chore, IsFeature);
    FilterThree(feat, fix, chore, IsFix);
    assert Filter(ExampleCommits, IsBreakingChange) == [];
    assert Filter(ExampleCommits, IsFeature) == [feat];
    assert Filter(ExampleCommits, IsFix) == [fix];
    CategoriesInFixedOrder(ExampleCommits);
  }

  /**
   * The Markdown changelog of the example: the Features heading and its one
   * bullet, a blank line, then the Bug Fixes heading and its one bullet.
   */
  lemma ExampleMarkdown()
    ensures var one := "### " + "Features" + "\n\n" + "- **feat:** add X\n";
      var two := "### " + "Bug Fixes" + "\n\n" + "- **fix:** correct Y\n";
      Markdown(CategorizeCommits(ExampleCommits)) == one + "\n" + two
  {
    ExampleCategories();
    var categories := CategorizeCommits(ExampleCommits);
    var blocks := [Block(categories[0]), Block(categories[1])];
    assert Map(Block, categories) == blocks && blocks == [blocks[0]] + [blocks[1]];
    JoinSnoc("\n", [blocks[0]], blocks[1]);
    var feat, fix := ExampleCommits[0], ExampleCommits[1];
    assert [feat][..0] == [] && [fix][..0] == [];
    assert Bullets([feat]) == Bullet(feat);
    assert Bullets([fix]) == Bullet(fix);
    ExampleBullets();
  }

  /** The example's bullets, as text. */
  lemma ExampleBullets()
    ensures Bullet(ExampleCommits[0]) == "- **feat:** add X\n"
    ensures Bullet(ExampleCommits[1]) == "- **fix:** correct Y\n"
  {
  }

  /** The JSON changelog of the example: two category objects, one commit object each. */
  lemma ExampleJson()
    ensures var one := "{\"name\": \"" + "Features" + "\",\"commits\":[" + "{\"type\": \"feat\", \"subject\": \"add X\"}" + "]}";
      var two := "{\"name\": \"" + "Bug Fixes" + "\",\"commits\":[" + "{\"type\": \"fix\", \"subject\": \"correct Y\"}" + "]}";
      Json(CategorizeCommits(ExampleCommits)) == "[" + one + "," + two + "]"
  {
    ExampleCategories();
    var categories := CategorizeCommits(ExampleCommits);
    var objects := [CategoryObject(categories[0]), CategoryObject(categories[1])];
    assert Map(CategoryObject, categories) == objects && objects == [objects[0]] + [objects[1]];
    JoinSnoc(",", [objects[0]], objects[1]);
    assert Map(CommitObject, categories[0].commits) == [CommitObject(ExampleCommits[0])];
    assert Map(CommitObject, categories[1].commits) == [CommitObject(ExampleCommits[1])];
    AppendAssociative("[", objects[0] + ",", objects[1]);
    AppendAssociative("[", objects[0], ",");
    ExampleCommitObjects();
  }

  /** The example's commit objects, as text. */
  lemma ExampleCommitObjects()
    ensures CommitObject(ExampleCommits[0]) == "{\"type\": \"feat\", \"subject\": \"add X\"}"
    ensures CommitObject(ExampleCommits[1]) == "{\"type\": \"fix\", \"subject\": \"correct Y\"}"
  {
    assert "{\"type\": \"" + "feat" == "{\"type\": \"feat";
    assert "{\"type\": \"feat" + "\", \"subject\": \"" == "{\"type\": \"feat\", \"subject\": \"";
    assert "{\"type\": \"feat\", \"subject\": \"" + "add X" == "{\"type\": \"feat\", \"subject\": \"add X";
    assert "{\"type\": \"" + "fix" == "{\"type\": \"fix";
    assert "{\"type\": \"fix" + "\", \"subject\": \"" == "{\"type\": \"fix\", \"subject\": \"";
    assert "{\"type\": \"fix\", \"subject\": \"" + "correct Y" == "{\"type\": \"fix\", \"subject\": \"correct Y";
  }
}
