/**
 * src/git.rs: the commit record built from a parsed Conventional Commit, its
 * breaking-change list and footers, and the loop that collects the records of
 * a walked commit range under the strict or the lenient policy.
 *
 * The parser (`git_conventional::Commit::parse`) is a foreign library; the
 * model takes it as a function parameter of type `Parser`, and reads what the
 * library computes (`breaking()`, `breaking_description()`, each footer's
 * `breaking()`) as fields of its result.
 */
module Git {
  import opened Wrappers
  import opened Sequences
  import opened Revwalk

  /** How a footer's token is separated from its value. */
  datatype FooterSeparator =
    | Value                   // `Token: value`
    | Other(display: string)  // any other separator, with the text the library displays for it

  /** A footer as the parser library gives it. */
  datatype ParsedFooter = ParsedFooter(token: string, separator: FooterSeparator, value: string, breaking: bool)

  /** A commit as the parser library gives it. */
  datatype ParsedCommit = ParsedCommit(
    typ: string,
    scope: Option<string>,
    description: string,
    body: Option<string>,
    breaking: bool,
    breakingDescription: Option<string>,
    footers: seq<ParsedFooter>)

  /** `git_conventional::Commit::parse`: a commit, or the parser's diagnostic. */
  type Parser = string -> Result<ParsedCommit, string>

  /** `ConventionalCommitFooter` */
  datatype Footer = Footer(token: string, value: string, breaking: bool, separator: string)

  /** `ConventionalCommit` */
  datatype ConventionalCommit = ConventionalCommit(
    breaking: bool,
    breakingChanges: seq<string>,
    typ: string,
    scope: Option<string>,
    description: string,
    body: Option<string>,
    footers: seq<Footer>,
    sha: string)

  /**
   * `ConventionalCommitFooter::new`: token, value and breaking flag are kept,
   * and the separator is stored as text, `": "` for `Value` (the library
   * shows only `":"`) and the library's text for any other separator.
   */
  function FooterFromParsed(f: ParsedFooter): (r: Footer)
    ensures r.token == f.token && r.value == f.value && r.breaking == f.breaking
    ensures f.separator == Value ==> r.separator == ": "
    ensures f.separator.Other? ==> r.separator == f.separator.display
  {
    var separator := match f.separator
      case Value => ": "
      case Other(display) => display;
    Footer(f.token, f.value, f.breaking, separator)
  }

  /**
   * `ConventionalCommitFooter::to_string`: the token, then the separator text,
   * then the value, with nothing between them.
   */
  function FooterToString(f: Footer): (r: string)
    ensures |r| == |f.token| + |f.separator| + |f.value|
    ensures r[..|f.token|] == f.token
    ensures r[|f.token|..|f.token| + |f.separator|] == f.separator
    ensures r[|f.token| + |f.separator|..] == f.value
  {
    f.token + f.separator + f.value
  }

  /** The position of the first `c` in `s`, or `|s|` when there is none. */
  function IndexOf(s: string, c: char): (r: nat)
    ensures r <= |s|
    ensures r < |s| ==> s[r] == c
    ensures forall k :: 0 <= k < r ==> s[k] != c
  {
    if s == [] then 0 else if s[0] == c then 0 else 1 + IndexOf(s[1..], c)
  }

  /**
   * How a parsed footer is rendered: a `Value` footer as `token: value`, any
   * other as token, the library's separator text, value. A `Value` rendering
   * can be split back: when the token has no colon, the first colon ends the
   * token and the value follows `": "`.
   */
  lemma FooterRendering(f: ParsedFooter)
    ensures f.separator == Value ==> FooterToString(FooterFromParsed(f)) == f.token + ": " + f.value
    ensures f.separator.Other? ==>
      FooterToString(FooterFromParsed(f)) == f.token + f.separator.display + f.value
    ensures f.separator == Value && ':' !in f.token ==>
      var s := FooterToString(FooterFromParsed(f));
      IndexOf(s, ':') == |f.token| && s[..|f.token|] == f.token && s[|f.token| + 2..] == f.value
  {
    var s := FooterToString(FooterFromParsed(f));
    if f.separator == Value {
      assert s == f.token + ": " + f.value;
      if ':' !in f.token {
        assert s[|f.token|] == ':';
      }
    }
  }

  /** The footers `get_breaking_changes` lists after the breaking description `d`: breaking ones whose value differs from `d`. */
  function AdditionalBreaking(d: string): ParsedFooter -> Option<string>
  {
    (f: ParsedFooter) => if f.breaking && f.value != d then Some(f.value) else None
  }

  /**
   * `ConventionalCommit::get_breaking_changes`: the breaking description first,
   * then the values of the other breaking footers, in footer order, leaving out
   * any that repeat the description; nothing when there is no breaking
   * description.
   */
  function BreakingChanges(c: ParsedCommit): (r: seq<string>)
    ensures c.breakingDescription.None? <==> r == []
    ensures c.breakingDescription.Some? ==>
      var d, p := c.breakingDescription.value, Positions(c.footers, AdditionalBreaking(c.breakingDescription.value));
      && r[0] == d
      && |r| == 1 + |p|
      && (forall k :: 1 <= k < |r| ==> r[k] != d)
      && (forall k :: 0 <= k < |p| ==>
            p[k] < |c.footers| && c.footers[p[k]].breaking && r[k + 1] == c.footers[p[k]].value)
      && (forall a, b :: 0 <= a < b < |p| ==> p[a] < p[b])
      && (forall i :: 0 <= i < |c.footers| && c.footers[i].breaking && c.footers[i].value != d ==> i in p)
  {
    match c.breakingDescription
    case None => []
    case Some(d) =>
      AdditionalBreakingFooters(d, c.footers);
      [d] + FilterMap(c.footers, AdditionalBreaking(d))
  }

  /**
   * The footers kept after the breaking description `d` are the breaking ones
   * whose value differs from `d`, taken in footer order.
   */
  lemma AdditionalBreakingFooters(d: string, footers: seq<ParsedFooter>)
    ensures var r, p := FilterMap(footers, AdditionalBreaking(d)), Positions(footers, AdditionalBreaking(d));
      && |r| == |p|
      && (forall k :: 0 <= k < |p| ==>
            p[k] < |footers| && footers[p[k]].breaking && footers[p[k]].value != d && r[k] == footers[p[k]].value)
      && (forall a, b :: 0 <= a < b < |p| ==> p[a] < p[b])
      && (forall i :: 0 <= i < |footers| && footers[i].breaking && footers[i].value != d ==> i in p)
  {
    var keep := AdditionalBreaking(d);
    var r, p := FilterMap(footers, keep), Positions(footers, keep);
    FilterMapPositions(footers, keep);
    forall k | 0 <= k < |p|
      ensures footers[p[k]].breaking && footers[p[k]].value != d && r[k] == footers[p[k]].value
    {
      assert keep(footers[p[k]]) == Some(r[k]);
    }
    forall i | 0 <= i < |footers| && footers[i].breaking && footers[i].value != d ensures i in p {
      assert keep(footers[i]).Some?;
    }
  }

  /**
   * `ConventionalCommit::new`: the record carries the parsed fields over,
   * converts the footers one for one in the same order, and takes its sha
   * from the commit's object id; its breaking-change list is the subject of
   * `CommitBreakingChanges`.
   */
  function CommitFromParsed(oid: Oid, c: ParsedCommit): (r: ConventionalCommit)
    ensures r.sha == oid
    ensures r.breaking == c.breaking && r.typ == c.typ && r.scope == c.scope
    ensures r.description == c.description && r.body == c.body
    ensures |r.footers| == |c.footers|
    ensures forall i :: 0 <= i < |c.footers| ==> r.footers[i] == FooterFromParsed(c.footers[i])
  {
    ConventionalCommit(
      c.breaking, BreakingChanges(c), c.typ, c.scope, c.description, c.body,
      Map(FooterFromParsed, c.footers), oid)
  }

  /** The breaking-change list of the record is the one `get_breaking_changes` builds from the parsed commit. */
  lemma CommitBreakingChanges(oid: Oid, c: ParsedCommit)
    ensures CommitFromParsed(oid, c).breakingChanges == BreakingChanges(c)
  {
  }

  /** Why `get_conventional_commits` gives up. */
  datatype CollectError =
    | InvalidUtf8(oid: Oid)                          // the message is not valid UTF-8
    | Unconventional(oid: Oid, diagnostic: string)   // strict mode: the message does not parse

  /** Whether a walked commit ends the collection with an error under the given policy. */
  predicate Aborts(w: WalkedCommit, strict: bool, parse: Parser)
  {
    w.message.None? || (strict && parse(w.message.value).Failure?)
  }

  /** The error such a commit ends the collection with. */
  function Diagnosis(w: WalkedCommit, parse: Parser): CollectError
  {
    match w.message
    case None => InvalidUtf8(w.oid)
    case Some(m) => Unconventional(w.oid, if parse(m).Failure? then parse(m).error else "")
  }

  /** The record a walked commit contributes, if its message is text and parses. */
  function Converted(parse: Parser): WalkedCommit -> Option<ConventionalCommit>
  {
    (w: WalkedCommit) =>
      if w.message.Some? && parse(w.message.value).Success?
      then Some(CommitFromParsed(w.oid, parse(w.message.value).value))
      else None
  }

  /**
   * What the loop of `get_conventional_commits` computes, one walked commit
   * after the other: the first commit that aborts decides the error, and
   * until then every commit adds its record, if it has one.
   */
  function Collect(walk: seq<WalkedCommit>, strict: bool, parse: Parser): (r: Result<seq<ConventionalCommit>, CollectError>)
    ensures r.Success? ==> |r.value| <= |walk|
  {
    if walk == [] then Success([])
    else
      var w := walk[|walk| - 1];
      match Collect(walk[..|walk| - 1], strict, parse)
      case Failure(e) => Failure(e)
      case Success(commits) =>
        if Aborts(w, strict, parse) then Failure(Diagnosis(w, parse))
        else Success(commits + Kept(Converted(parse)(w)))
  }

  /** One more walked commit: what `Collect` of a prefix one longer is. */
  lemma CollectSnoc(walk: seq<WalkedCommit>, i: nat, strict: bool, parse: Parser)
    requires i < |walk|
    ensures Collect(walk[..i + 1], strict, parse) ==
      match Collect(walk[..i], strict, parse)
      case Failure(e) => Failure(e)
      case Success(commits) =>
        if Aborts(walk[i], strict, parse) then Failure(Diagnosis(walk[i], parse))
        else Success(commits + Kept(Converted(parse)(walk[i])))
  {
    assert walk[..i + 1][..i] == walk[..i];
  }

  /** The first walked commit that aborts decides the outcome of the whole collection. */
  lemma CollectAbortsAt(walk: seq<WalkedCommit>, i: nat, strict: bool, parse: Parser, commits: seq<ConventionalCommit>)
    requires i < |walk| && Collect(walk[..i], strict, parse) == Success(commits) && Aborts(walk[i], strict, parse)
    ensures Collect(walk, strict, parse) == Failure(Diagnosis(walk[i], parse))
  {
    CollectSnoc(walk, i, strict, parse);
    CollectFailureSticks(walk, i + 1, strict, parse);
  }

  /** A walked commit whose message parses adds its record. */
  lemma CollectPushes(walk: seq<WalkedCommit>, i: nat, strict: bool, parse: Parser, commits: seq<ConventionalCommit>)
    requires i < |walk| && Collect(walk[..i], strict, parse) == Success(commits)
    requires walk[i].message.Some? && parse(walk[i].message.value).Success?
    ensures Collect(walk[..i + 1], strict, parse) ==
      Success(commits + [CommitFromParsed(walk[i].oid, parse(walk[i].message.value).value)])
  {
    CollectSnoc(walk, i, strict, parse);
  }

  /** In lenient mode a walked commit whose message does not parse adds nothing. */
  lemma CollectSkips(walk: seq<WalkedCommit>, i: nat, strict: bool, parse: Parser, commits: seq<ConventionalCommit>)
    requires i < |walk| && Collect(walk[..i], strict, parse) == Success(commits)
    requires walk[i].message.Some? && parse(walk[i].message.value).Failure? && !strict
    ensures Collect(walk[..i + 1], strict, parse) == Success(commits)
  {
    CollectSnoc(walk, i, strict, parse);
    assert commits + [] == commits;
  }

  /** Once a prefix of the walk has failed, the whole walk fails with the same error. */
  lemma {:induction false} CollectFailureSticks(walk: seq<WalkedCommit>, i: nat, strict: bool, parse: Parser)
    requires i <= |walk| && Collect(walk[..i], strict, parse).Failure?
    ensures Collect(walk, strict, parse) == Collect(walk[..i], strict, parse)
  {
    if i < |walk| {
      var front := walk[..|walk| - 1];
      assert front[..i] == walk[..i];
      CollectFailureSticks(front, i, strict, parse);
    } else {
      assert walk[..i] == walk;
    }
  }

  /** The collection of a non-empty walk fails when that of its front does or its last commit aborts. */
  lemma CollectFailsSnoc(walk: seq<WalkedCommit>, strict: bool, parse: Parser)
    requires walk != []
    ensures Collect(walk, strict, parse).Failure? <==>
      Collect(walk[..|walk| - 1], strict, parse).Failure? || Aborts(walk[|walk| - 1], strict, parse)
  {
  }

  /** The collection fails exactly when some walked commit aborts. */
  lemma {:induction false} CollectFailsIffAbort(walk: seq<WalkedCommit>, strict: bool, parse: Parser)
    ensures Collect(walk, strict, parse).Failure? <==> exists i :: 0 <= i < |walk| && Aborts(walk[i], strict, parse)
  {
    if walk != [] {
      var n := |walk| - 1;
      var front := walk[..n];
      CollectFailsIffAbort(front, strict, parse);
      CollectFailsSnoc(walk, strict, parse);
      AbortsSnoc(front, walk, strict, parse);
    }
  }

  /** Some commit of the walk aborts exactly when one of its front does or its last one does. */
  lemma AbortsSnoc(front: seq<WalkedCommit>, walk: seq<WalkedCommit>, strict: bool, parse: Parser)
    requires walk != [] && front == walk[..|walk| - 1]
    ensures (exists i :: 0 <= i < |walk| && Aborts(walk[i], strict, parse)) <==>
      (exists i :: 0 <= i < |front| && Aborts(front[i], strict, parse)) || Aborts(walk[|walk| - 1], strict, parse)
  {
    var n := |walk| - 1;
    if exists i :: 0 <= i < |front| && Aborts(front[i], strict, parse) {
      var i :| 0 <= i < |front| && Aborts(front[i], strict, parse);
      assert front[i] == walk[i];
    }
    if exists i :: 0 <= i < |walk| && Aborts(walk[i], strict, parse) {
      var i :| 0 <= i < |walk| && Aborts(walk[i], strict, parse);
      if i < n {
        assert front[i] == walk[i];
      }
    }
  }

  /** A failed collection carries the error of the first walked commit that aborts. */
  lemma {:induction false} CollectFailsAtFirstAbort(walk: seq<WalkedCommit>, strict: bool, parse: Parser)
    requires Collect(walk, strict, parse).Failure?
    ensures exists i :: 0 <= i < |walk| && Aborts(walk[i], strict, parse) &&
              (forall j :: 0 <= j < i ==> !Aborts(walk[j], strict, parse)) &&
              Collect(walk, strict, parse).error == Diagnosis(walk[i], parse)
  {
    var n := |walk| - 1;
    var front := walk[..n];
    assert forall j :: 0 <= j < n ==> front[j] == walk[j];
    if Collect(front, strict, parse).Failure? {
      CollectFailsAtFirstAbort(front, strict, parse);
      var i :| 0 <= i < n && Aborts(front[i], strict, parse) &&
        (forall j :: 0 <= j < i ==> !Aborts(front[j], strict, parse)) &&
        Collect(front, strict, parse).error == Diagnosis(front[i], parse);
      assert Aborts(walk[i], strict, parse);
    } else {
      CollectFailsIffAbort(front, strict, parse);
      assert forall j :: 0 <= j < n ==> !Aborts(walk[j], strict, parse);
    }
  }

  /** A collection that succeeds holds the records of the walked commits that parse, in walk order. */
  lemma {:induction false} CollectSuccessIsFilterMap(walk: seq<WalkedCommit>, strict: bool, parse: Parser)
    ensures Collect(walk, strict, parse).Success? ==> Collect(walk, strict, parse).value == FilterMap(walk, Converted(parse))
  {
    if walk != [] {
      CollectSuccessIsFilterMap(walk[..|walk| - 1], strict, parse);
    }
  }

  /** The facts about `Collect` that `GetConventionalCommits` promises. */
  lemma CollectMeaning(walk: seq<WalkedCommit>, strict: bool, parse: Parser)
    ensures var r := Collect(walk, strict, parse);
      && (r.Failure? <==> exists i :: 0 <= i < |walk| && Aborts(walk[i], strict, parse))
      && (r.Failure? ==>
            exists i :: 0 <= i < |walk| && Aborts(walk[i], strict, parse) &&
              (forall j :: 0 <= j < i ==> !Aborts(walk[j], strict, parse)) &&
              r.error == Diagnosis(walk[i], parse))
      && (r.Success? ==> r.value == FilterMap(walk, Converted(parse)))
      && (r.Success? && strict ==>
            |r.value| == |walk| && forall i :: 0 <= i < |walk| ==> r.value[i].sha == walk[i].oid)
  {
    CollectFailsIffAbort(walk, strict, parse);
    if Collect(walk, strict, parse).Failure? {
      CollectFailsAtFirstAbort(walk, strict, parse);
    }
    CollectSuccessIsFilterMap(walk, strict, parse);
    if Collect(walk, strict, parse).Success? && strict {
      StrictCollectsEverything(walk, parse);
    }
  }

  /**
   * The loop of `get_conventional_commits` over the walked commits. It fails,
   * in either mode, at the first commit whose message is not UTF-8, and in
   * strict mode also at the first that does not parse; the error is that of
   * the first offending commit. Otherwise it returns the records of the
   * commits that parse, in walk order; in strict mode that is all of them,
   * each carrying its own object id.
   */
  method GetConventionalCommits(walk: seq<WalkedCommit>, strict: bool, parse: Parser)
    returns (r: Result<seq<ConventionalCommit>, CollectError>)
    ensures r == Collect(walk, strict, parse)
    ensures r.Failure? <==> exists i :: 0 <= i < |walk| && Aborts(walk[i], strict, parse)
    ensures r.Failure? ==>
      exists i :: 0 <= i < |walk| && Aborts(walk[i], strict, parse) &&
        (forall j :: 0 <= j < i ==> !Aborts(walk[j], strict, parse)) &&
        r.error == Diagnosis(walk[i], parse)
    ensures r.Success? ==> r.value == FilterMap(walk, Converted(parse))
    ensures r.Success? && strict ==>
      |r.value| == |walk| && forall i :: 0 <= i < |walk| ==> r.value[i].sha == walk[i].oid
  {
    var commits: seq<ConventionalCommit> := [];
    var i := 0;
    while i < |walk|
      invariant 0 <= i <= |walk|
      invariant Collect(walk[..i], strict, parse) == Success(commits)
    {
      var w := walk[i];
      if w.message.None? {
        r := Failure(InvalidUtf8(w.oid));
        CollectAbortsAt(walk, i, strict, parse, commits);
        CollectMeaning(walk, strict, parse);
        return;
      }
      var conventionalCommit := parse(w.message.value);
      if conventionalCommit.Failure? && strict {
        r := Failure(Unconventional(w.oid, conventionalCommit.error));
        CollectAbortsAt(walk, i, strict, parse, commits);
        CollectMeaning(walk, strict, parse);
        return;
      }
      if conventionalCommit.Success? {
        CollectPushes(walk, i, strict, parse, commits);
        commits := commits + [CommitFromParsed(w.oid, conventionalCommit.value)];
      } else {
        CollectSkips(walk, i, strict, parse, commits);
      }
      i := i + 1;
    }
    assert walk[..i] == walk;
    r := Success(commits);
    CollectMeaning(walk, strict, parse);
  }

  /**
   * In strict mode a collection that succeeds keeps every walked commit, in
   * walk order, each record carrying its own object id.
   */
  lemma StrictCollectsEverything(walk: seq<WalkedCommit>, parse: Parser)
    requires forall i :: 0 <= i < |walk| ==> !Aborts(walk[i], true, parse)
    ensures var r := FilterMap(walk, Converted(parse));
      |r| == |walk| && forall i :: 0 <= i < |walk| ==> r[i].sha == walk[i].oid
  {
    FilterMapTotal(walk, Converted(parse));
  }

  /**
   * In lenient mode the records are an order-preserving subsequence of the
   * walk: the k-th record is built from the commit at the k-th of increasing
   * positions, whose message parses, and carries that commit's object id; no
   * commit that parses is skipped; and there are never more records than
   * walked commits.
   */
  lemma LenientKeepsParsedInOrder(walk: seq<WalkedCommit>, parse: Parser)
    ensures var r, p := FilterMap(walk, Converted(parse)), Positions(walk, Converted(parse));
      && |r| == |p| <= |walk|
      && (forall k :: 0 <= k < |p| ==>
            && p[k] < |walk|
            && walk[p[k]].message.Some?
            && parse(walk[p[k]].message.value).Success?
            && r[k] == CommitFromParsed(walk[p[k]].oid, parse(walk[p[k]].message.value).value)
            && r[k].sha == walk[p[k]].oid)
      && (forall a, b :: 0 <= a < b < |p| ==> p[a] < p[b])
      && (forall i :: 0 <= i < |walk| && walk[i].message.Some? && parse(walk[i].message.value).Success? ==> i in p)
  {
    FilterMapPositions(walk, Converted(parse));
    FilterMapLength(walk, Converted(parse));
  }

  /** Whatever succeeds in strict mode succeeds in lenient mode with the same records. */
  lemma StrictSuccessIsLenientSuccess(walk: seq<WalkedCommit>, parse: Parser)
    ensures (forall i :: 0 <= i < |walk| ==> !Aborts(walk[i], true, parse)) ==>
      forall i :: 0 <= i < |walk| ==> !Aborts(walk[i], false, parse)
    ensures (exists i :: 0 <= i < |walk| && Aborts(walk[i], false, parse)) <==>
      exists i :: 0 <= i < |walk| && walk[i].message.None?
    ensures (forall i :: 0 <= i < |walk| ==> !Aborts(walk[i], true, parse)) ==>
      Collect(walk, true, parse) == Collect(walk, false, parse)
  {
    if forall i :: 0 <= i < |walk| ==> !Aborts(walk[i], true, parse) {
      CollectFailsIffAbort(walk, true, parse);
      CollectFailsIffAbort(walk, false, parse);
      CollectSuccessIsFilterMap(walk, true, parse);
      CollectSuccessIsFilterMap(walk, false, parse);
    }
  }
}
